/** Every legal JSON text within the depth limit is accepted, with the value it stands for. */
module JsonAccepted {
  import opened Decimal
  import opened Characters
  import opened JsonValue
  import opened JsonString
  import opened JsonGrammar
  import opened JsonSyntax

  // ---- Texts inside a text -----------------------------------------------------------------------------------

  ghost predicate Starts(s: Bytes, i: nat, t: Bytes) {
    i + |t| <= |s| && s[i..i + |t|] == t
  }

  lemma StartsSplit(s: Bytes, i: nat, a: Bytes, b: Bytes)
    requires Starts(s, i, a + b)
    ensures Starts(s, i, a) && Starts(s, i + |a|, b) && i + |a| + |b| <= |s|
  {
    var t := s[i..i + |a + b|];
    assert t[..|a|] == a && t[|a|..] == b;
    assert s[i..i + |a|] == t[..|a|];
    assert s[i + |a|..i + |a| + |b|] == t[|a|..];
  }

  lemma StartsByte(s: Bytes, i: nat, t: Bytes, k: nat)
    requires Starts(s, i, t) && k < |t|
    ensures i + k < |s| && s[i + k] == t[k]
  {
    assert s[i..i + |t|][k] == t[k];
  }

  // ---- Blanks --------------------------------------------------------------------------------------------------

  /** Nothing can be skipped at `i`. */
  ghost predicate NoBlank(s: Bytes, i: nat, st: Strategy)
    requires i <= |s|
  {
    !IsSpace(At(s, i)) && (st.COMMENTS? ==> At(s, i) != SLASH)
  }

  lemma NothingSkipped(s: Bytes, i: nat, st: Strategy)
    requires i <= |s| && NoBlank(s, i, st)
    ensures SkipGarbage(s, i, st) == Ok((), i)
  {
  }

  lemma SpaceSkipped(s: Bytes, i: nat, st: Strategy)
    requires i < |s| && IsSpace(s[i])
    ensures SkipGarbage(s, i, st) == SkipGarbage(s, i + 1, st)
  {
  }

  lemma CommentSkipped(s: Bytes, i: nat, st: Strategy)
    requires i < |s| && s[i] == SLASH && st.COMMENTS? && Comment(s, i).Ok?
    ensures SkipGarbage(s, i, st) == SkipGarbage(s, Comment(s, i).next, st)
  {
    hide Comment;
    assert SkipSpace(s, i) == i;
  }

  lemma {:induction false} LineEndFrom(s: Bytes, i: nat, j: nat)
    requires i <= j <= |s| && (forall k :: i <= k < j ==> s[k] != LF) && (j < |s| ==> s[j] == LF)
    ensures LineEnd(s, i) == j
    decreases j - i
  {
    if i < j {
      LineEndFrom(s, i + 1, j);
    }
  }

  lemma {:induction false} BlockEndFrom(s: Bytes, i: nat, j: nat)
    requires i <= j && j + 2 <= |s| && s[j] == STAR && s[j + 1] == SLASH
    requires forall k :: i <= k < j ==> !(s[k] == STAR && s[k + 1] == SLASH)
    ensures BlockEnd(s, i) == Ok((), j + 2)
    decreases j - i
  {
    if i < j {
      BlockEndFrom(s, i + 1, j);
    }
  }

  lemma LineCommentRead(text: Bytes, s: Bytes, i: nat)
    requires Starts(s, i, BlankText(LineComment(text))) && Code('\n') !in text
    requires var j := i + 2 + |text|; j < |s| ==> s[j] == LF
    ensures i < |s| && s[i] == SLASH && Comment(s, i) == Ok((), i + 2 + |text|)
  {
    StartsSplit(s, i, Ascii("//"), text);
    StartsByte(s, i, Ascii("//"), 0);
    StartsByte(s, i, Ascii("//"), 1);
    forall k | i + 2 <= k < i + 2 + |text| ensures s[k] != LF {
      StartsByte(s, i + 2, text, k - (i + 2));
    }
    LineEndFrom(s, i + 2, i + 2 + |text|);
  }

  lemma BlockCommentRead(text: Bytes, s: Bytes, i: nat)
    requires Starts(s, i, BlankText(BlockComment(text)))
    requires forall k :: 0 <= k < |text| ==> !ClosesAt(text + Ascii("*/"), k)
    ensures i < |s| && s[i] == SLASH && Comment(s, i) == Ok((), i + 4 + |text|)
  {
    var body := text + Ascii("*/");
    StartsSplit(s, i, Ascii("/*"), body);
    StartsByte(s, i, Ascii("/*"), 0);
    StartsByte(s, i, Ascii("/*"), 1);
    var j := i + 2 + |text|;
    StartsByte(s, i + 2, body, |text|);
    StartsByte(s, i + 2, body, |text| + 1);
    forall k | i + 2 <= k < j ensures !(s[k] == STAR && s[k + 1] == SLASH) {
      StartsByte(s, i + 2, body, k - (i + 2));
      StartsByte(s, i + 2, body, k + 1 - (i + 2));
      assert !ClosesAt(body, k - (i + 2));
    }
    BlockEndFrom(s, i + 2, j);
  }

  /** One blank is skipped. */
  lemma BlankSkipped(b: Blank, s: Bytes, i: nat, st: Strategy)
    requires LegalBlank(b, st) && Starts(s, i, BlankText(b))
    requires b.LineComment? && i + |BlankText(b)| < |s| ==> s[i + |BlankText(b)|] == LF
    ensures SkipGarbage(s, i, st) == SkipGarbage(s, i + |BlankText(b)|, st)
  {
    hide SkipGarbage, Comment, Starts;
    match b
    case Space(c) =>
      StartsByte(s, i, [Code(c)], 0);
      SpaceSkipped(s, i, st);
    case LineComment(text) =>
      LineCommentRead(text, s, i);
      CommentSkipped(s, i, st);
    case BlockComment(text) =>
      BlockCommentRead(text, s, i);
      CommentSkipped(s, i, st);
  }

  lemma {:induction false} BlanksSkipped(bs: seq<Blank>, s: Bytes, i: nat, st: Strategy)
    requires Starts(s, i, BlanksText(bs))
    requires var j := i + |BlanksText(bs)|; LegalBlanks(bs, st, j == |s|) && NoBlank(s, j, st)
    ensures SkipGarbage(s, i, st) == Ok((), i + |BlanksText(bs)|)
    decreases bs
  {
    hide SkipGarbage, NoBlank, LegalBlank, BlankText;
    if bs == [] {
      NothingSkipped(s, i, st);
    } else {
      var b, rest := bs[0], bs[1..];
      var j := i + |BlankText(b)|;
      StartsSplit(s, i, BlankText(b), BlanksText(rest));
      if b.LineComment? && rest != [] {
        LineBreakText();
        assert BlanksText(rest) == BlankText(rest[0]) + BlanksText(rest[1..]);
        StartsByte(s, j, BlanksText(rest), 0);
      }
      BlankSkipped(b, s, i, st);
      BlanksSkipped(rest, s, j, st);
    }
  }

  lemma LineBreakText()
    ensures BlankText(Space('\n')) == [LF]
  {
  }

  /** The token behind some blanks. */
  lemma TokenRead(bs: seq<Blank>, s: Bytes, i: nat, st: Strategy)
    requires LegalBlanks(bs, st, false) && Starts(s, i, BlanksText(bs))
    requires var j := i + |BlanksText(bs)|; j < |s| && !IsSpace(s[j]) && s[j] != SLASH
    ensures var j := i + |BlanksText(bs)|; NextToken(s, i, st) == Ok(s[j], j + 1)
  {
    hide LegalBlanks, SkipGarbage, BlanksText;
    BlanksSkipped(bs, s, i, st);
  }

  lemma TokenHere(s: Bytes, i: nat, st: Strategy)
    requires i < |s| && !IsSpace(s[i]) && s[i] != SLASH
    ensures NextToken(s, i, st) == Ok(s[i], i + 1)
  {
  }

  // ---- Strings ---------------------------------------------------------------------------------------------------

  lemma HexRead(h: Hex)
    requires h.value < 16
    ensures IsHex(HexText(h)) && HexDigit(HexText(h)) == h.value
  {
  }

  lemma UnitRead(hs: seq<Hex>)
    requires LegalChar(Unicode(hs))
    ensures forall k :: 0 <= k < 4 ==> IsHex(HexTexts(hs)[k])
    ensures Hex4(HexTexts(hs)) == UnitOf(hs)
  {
    hide HexText;
    forall k | 0 <= k < 4 ensures IsHex(HexTexts(hs)[k]) && HexDigit(HexTexts(hs)[k]) == hs[k].value {
      HexRead(hs[k]);
    }
  }

  lemma UnicodeRead(hs: seq<Hex>, s: Bytes, i: nat)
    requires LegalChar(Unicode(hs)) && Starts(s, i, CharText(Unicode(hs))) && Lex(s, i + 6).Ok?
    ensures Lex(s, i) == Ok([Unit(UnitOf(hs))] + Lex(s, i + 6).value, Lex(s, i + 6).next)
  {
    hide Hex4, UnitOf;
    var e := CharText(Unicode(hs));
    StartsByte(s, i, e, 0);
    StartsByte(s, i, e, 1);
    StartsSplit(s, i, [Code('\\'), Code('u')], HexTexts(hs));
    UnitRead(hs);
    assert s[i + 2..Min(i + 6, |s|)] == HexTexts(hs);
  }

  lemma CharRead(c: Char, s: Bytes, i: nat)
    requires LegalChar(c) && Starts(s, i, CharText(c)) && Lex(s, i + |CharText(c)|).Ok?
    ensures var rest := Lex(s, i + |CharText(c)|); Lex(s, i) == Ok([TokenOf(c)] + rest.value, rest.next)
  {
    StartsByte(s, i, CharText(c), 0);
    match c
    case Plain(_) =>
    case Escape(_) => StartsByte(s, i, CharText(c), 1);
    case Unicode(hs) => UnicodeRead(hs, s, i);
  }

  lemma {:induction false} CharsRead(cs: seq<Char>, s: Bytes, i: nat)
    requires LegalChars(cs) && Starts(s, i, CharsText(cs) + [Code('"')])
    ensures Lex(s, i) == Ok(Tokens(cs), i + |CharsText(cs)| + 1)
    decreases cs
  {
    hide Lex, LegalChar, CharText, TokenOf, Starts;
    CharsSplit(cs, s, i);
    if cs == [] {
      QuoteRead(s, i);
    } else {
      CharsRead(cs[1..], s, i + |CharText(cs[0])|);
      CharRead(cs[0], s, i);
    }
  }

  lemma QuoteRead(s: Bytes, i: nat)
    requires i < |s| && s[i] == Code('"')
    ensures Lex(s, i) == Ok([], i + 1)
  {
  }

  lemma CharsSplit(cs: seq<Char>, s: Bytes, i: nat)
    requires Starts(s, i, CharsText(cs) + [Code('"')])
    ensures if cs == [] then i < |s| && s[i] == Code('"')
            else
              && Starts(s, i, CharText(cs[0])) && i + |CharText(cs[0])| <= |s|
              && Starts(s, i + |CharText(cs[0])|, CharsText(cs[1..]) + [Code('"')])
  {
    hide CharText, Starts;
    if cs == [] {
      StartsByte(s, i, CharsText(cs) + [Code('"')], 0);
    } else {
      var c, rest := cs[0], cs[1..];
      assert CharsText(cs) + [Code('"')] == CharText(c) + (CharsText(rest) + [Code('"')]);
      StartsSplit(s, i, CharText(c), CharsText(rest) + [Code('"')]);
    }
  }

  /** A string literal whose opening quote stands at `i`. */
  lemma StringRead(cs: seq<Char>, s: Bytes, i: nat)
    requires LegalChars(cs) && Starts(s, i, StringTreeText(cs))
    ensures i < |s| && s[i] == QUOTE && ParseString(s, i + 1) == Ok(Render(Tokens(cs)), i + |StringTreeText(cs)|)
  {
    hide Lex, LegalChars, CharsText, Render;
    StartsSplit(s, i, [Code('"')], CharsText(cs) + [Code('"')]);
    StartsByte(s, i, [Code('"')], 0);
    CharsRead(cs, s, i + 1);
  }

  // ---- Numbers -----------------------------------------------------------------------------------------------------

  /** The byte `c` cannot continue the numeral `n`. */
  ghost predicate Ends(n: Numeral, c: byte) {
    && !IsDigit(c)
    && (n.exponent.NoExponent? ==> !IsExponentMark(c))
    && (n.exponent.NoExponent? && n.fraction == [] ==> c != DOT)
  }

  lemma {:induction false} DigitsEndAt(s: Bytes, i: nat, j: nat)
    requires i <= j <= |s| && AllDigits(s[i..j]) && !IsDigit(At(s, j))
    ensures DigitsEnd(s, i) == j
    decreases j - i
  {
    if i < j {
      assert s[i..j][0] == s[i];
      assert s[i..j][1..] == s[i + 1..j];
      DigitsEndAt(s, i + 1, j);
    }
  }

  /** A row of digits in the text, up to a byte that is none. */
  lemma DigitsRead(ds: seq<nat>, s: Bytes, i: nat)
    requires AreDigits(ds) && Starts(s, i, Digits(ds)) && !IsDigit(At(s, i + |ds|))
    ensures DigitsEnd(s, i) == i + |ds| && AllDigits(s[i..i + |ds|]) && OfDec(s[i..i + |ds|]) == Number(ds)
    ensures ds != [] ==> i < |s| && IsDigit(s[i]) && DigitsEnd(s, i + 1) == i + |ds| && s[i] == 48 + ds[0]
  {
    hide OfDec, Number, DigitsEnd;
    OfDigits(ds);
    DigitsEndAt(s, i, i + |ds|);
    if ds != [] {
      StartsByte(s, i, Digits(ds), 0);
      assert s[i + 1..i + |ds|] == s[i..i + |ds|][1..];
      DigitsEndAt(s, i + 1, i + |ds|);
    }
  }

  function UnsignedText(n: Numeral): Bytes {
    Digits(n.integer) + (FractionText(n.fraction) + ExponentText(n.exponent))
  }

  ghost predicate IntegerLaid(n: Numeral, s: Bytes, a: nat, p: nat) {
    && a < p <= |s| && n.integer != [] && IsDigit(s[a]) && (s[a] == ZERO <==> n.integer[0] == 0)
    && DigitsEnd(s, a) == p && DigitsEnd(s, a + 1) == p
    && AllDigits(s[a..p]) && OfDec(s[a..p]) == Number(n.integer)
  }

  ghost predicate FractionLaid(n: Numeral, s: Bytes, p: nat, f: nat) {
    && p <= f <= |s|
    && if n.fraction == [] then f == p && At(s, p) != DOT
       else
         && p + 1 < f && s[p] == DOT && IsDigit(s[p + 1]) && DigitsEnd(s, p + 1) == f && f == p + 1 + |n.fraction|
         && AllDigits(s[p + 1..f]) && OfDec(s[p + 1..f]) == Number(n.fraction)
  }

  ghost predicate ExponentLaid(n: Numeral, s: Bytes, f: nat, e: nat) {
    && f <= e <= |s|
    && match n.exponent
       case NoExponent => e == f && !IsExponentMark(At(s, f))
       case Power(_, sign, ds) =>
         && f < e && IsExponentMark(s[f])
         && var q := if sign.NoSign? then f + 1 else f + 2;
         && q < e && IsDigit(s[q]) && DigitsEnd(s, q) == e
         && AllDigits(s[q..e]) && OfDec(s[q..e]) == Number(ds)
         && (sign.NoSign? <==> s[f + 1] != PLUS && s[f + 1] != MINUS) && (sign.Minus? <==> s[f + 1] == MINUS)
  }

  lemma ExponentParts(n: Numeral, s: Bytes, f: nat)
    requires LegalNumeral(n) && Starts(s, f, ExponentText(n.exponent))
    requires Ends(n, At(s, f + |ExponentText(n.exponent)|))
    ensures ExponentLaid(n, s, f, f + |ExponentText(n.exponent)|)
  {
    assert f + |ExponentText(n.exponent)| <= |s|;
    if n.exponent.Power? {
      var Power(upper, sign, ds) := n.exponent;
      ExponentSplit(upper, sign, ds, s, f);
      hide DigitsEnd, OfDec, Number, Digits, Starts, ExponentText, SignText;
      DigitsRead(ds, s, if sign.NoSign? then f + 1 else f + 2);
    }
  }

  /** The mark, the sign and the digits of an exponent at `f`. */
  lemma ExponentSplit(upper: bool, sign: Sign, ds: seq<nat>, s: Bytes, f: nat)
    requires Starts(s, f, ExponentText(Power(upper, sign, ds))) && ds != [] && AreDigits(ds)
    ensures var q := if sign.NoSign? then f + 1 else f + 2;
            && q + |ds| == f + |ExponentText(Power(upper, sign, ds))| <= |s| && Starts(s, q, Digits(ds))
            && IsExponentMark(s[f])
            && (sign.NoSign? <==> s[f + 1] != PLUS && s[f + 1] != MINUS) && (sign.Minus? <==> s[f + 1] == MINUS)
  {
    hide Starts;
    var mark := [if upper then Code('E') else Code('e')];
    StartsSplit(s, f, mark, SignText(sign) + Digits(ds));
    StartsByte(s, f, mark, 0);
    StartsSplit(s, f + 1, SignText(sign), Digits(ds));
    if sign.NoSign? {
      StartsByte(s, f + 1, Digits(ds), 0);
    } else {
      StartsByte(s, f + 1, SignText(sign), 0);
    }
  }

  /** The first byte of an exponent, or of what follows when there is none. */
  lemma AfterFractionByte(n: Numeral, s: Bytes, f: nat)
    requires LegalNumeral(n) && Starts(s, f, ExponentText(n.exponent))
    requires Ends(n, At(s, f + |ExponentText(n.exponent)|))
    ensures !IsDigit(At(s, f)) && (n.fraction == [] ==> At(s, f) != DOT)
  {
    if n.exponent.Power? {
      StartsByte(s, f, ExponentText(n.exponent), 0);
    }
  }

  lemma FractionParts(n: Numeral, s: Bytes, p: nat)
    requires LegalNumeral(n) && Starts(s, p, FractionText(n.fraction) + ExponentText(n.exponent))
    requires Ends(n, At(s, p + |FractionText(n.fraction)| + |ExponentText(n.exponent)|))
    ensures FractionLaid(n, s, p, p + |FractionText(n.fraction)|) && !IsDigit(At(s, p))
  {
    hide DigitsEnd, OfDec, Number, Digits, Starts;
    var f := p + |FractionText(n.fraction)|;
    StartsSplit(s, p, FractionText(n.fraction), ExponentText(n.exponent));
    AfterFractionByte(n, s, f);
    if n.fraction != [] {
      StartsSplit(s, p, [Code('.')], Digits(n.fraction));
      StartsByte(s, p, [Code('.')], 0);
      DigitsRead(n.fraction, s, p + 1);
    }
  }

  /** The three parts of an unsigned numeral at `a`. */
  lemma NumeralParts(n: Numeral, s: Bytes, a: nat)
    requires LegalNumeral(n) && Starts(s, a, UnsignedText(n)) && Ends(n, At(s, a + |UnsignedText(n)|))
    ensures var p := a + |n.integer|;
            var f := p + |FractionText(n.fraction)|;
            && IntegerLaid(n, s, a, p) && FractionLaid(n, s, p, f)
            && ExponentLaid(n, s, f, a + |UnsignedText(n)|)
  {
    hide DigitsEnd, OfDec, Number, Ends, FractionText, ExponentText, Digits, Starts;
    var p := a + |n.integer|;
    var f := p + |FractionText(n.fraction)|;
    StartsSplit(s, a, Digits(n.integer), FractionText(n.fraction) + ExponentText(n.exponent));
    StartsSplit(s, p, FractionText(n.fraction), ExponentText(n.exponent));
    ExponentParts(n, s, f);
    FractionParts(n, s, p);
    DigitsRead(n.integer, s, a);
  }

  lemma FractionRead(n: Numeral, u: Bytes, p: nat)
    requires FractionLaid(n, u, p, p + |FractionText(n.fraction)|)
    ensures FractionEnd(u, p) == p + |FractionText(n.fraction)|
    ensures FractionValue(u, p) == WithFraction(0, n.fraction)
  {
    hide DigitsEnd, OfDec, Number, Pow10;
  }

  lemma ExponentRead(n: Numeral, u: Bytes, f: nat, e: nat, x: real)
    requires ExponentLaid(n, u, f, e)
    ensures Scaled(u, f, x) == WithExponent(x, n.exponent)
  {
    hide DigitsEnd, OfDec, Number, Pow10;
  }

  lemma UnsignedValue(n: Numeral)
    requires LegalNumeral(n)
    ensures UnsignedStrtod(UnsignedText(n)) == WithExponent(WithFraction(Number(n.integer), n.fraction), n.exponent)
  {
    hide DigitsEnd, OfDec, Number, Pow10, Scaled, FractionEnd, FractionValue, WithExponent, FractionText, ExponentText,
      FractionLaid, ExponentLaid;
    var u := UnsignedText(n);
    var p := |n.integer|;
    assert u[0..|u|] == u;
    NumeralParts(n, u, 0);
    assert u[..p] == u[0..p];
    FractionRead(n, u, p);
    var f := p + |FractionText(n.fraction)|;
    ExponentRead(n, u, f, |u|, WithFraction(Number(n.integer), n.fraction));
  }

  /** The whole text of a numeral, as `strtod` sees it. */
  lemma StrtodRead(n: Numeral)
    requires LegalNumeral(n)
    ensures Strtod(NumeralText(n)) == Exact(n)
    ensures HasMinus(NumeralText(n)) <==> n.negative
    ensures NumeralText(n) == (if n.negative then [Code('-')] else []) + UnsignedText(n)
  {
    hide DigitsEnd, OfDec, Number, UnsignedStrtod, WithExponent, WithFraction, FractionText, ExponentText;
    var t, u := NumeralText(n), UnsignedText(n);
    UnsignedValue(n);
    if n.negative {
      assert t == [Code('-')] + u && t[1..] == u;
    } else {
      assert t == u && t[0] == Digits(n.integer)[0];
    }
  }

  lemma AtoiRead(n: Numeral)
    requires LegalNumeral(n) && n.fraction == [] && n.exponent.NoExponent? && |NumeralText(n)| <= INT_DIGITS10
    ensures NumeralValue(n) == Int(Atoi(NumeralText(n)))
  {
    hide DigitsEnd, OfDec, Number, Strtod, Exact;
    var t, u := NumeralText(n), UnsignedText(n);
    StrtodRead(n);
    assert u == Digits(n.integer) && u[0..|u|] == u && u[..|u|] == u;
    NumeralParts(n, u, 0);
    assert DigitsEnd(u, 0) == |u| && OfDec(u) == Number(n.integer);
    assert (if HasMinus(t) then t[1..] else t) == u;
    ShortNumber(n.integer);
  }

  lemma IntegerStep(n: Numeral, s: Bytes, i: nat, a: nat, p: nat)
    requires LegalNumeral(n) && IntegerLaid(n, s, a, p) && p == a + |n.integer|
    requires if n.negative then a == i + 1 && s[i] == MINUS else a == i
    ensures ParseNumber(s, i) == AfterInteger(s, i, p)
  {
    hide OfDec, Number, AfterInteger;
  }

  /** The parser's walk over the parts ends behind the numeral, with its value. */
  lemma NumberRead(n: Numeral, s: Bytes, i: nat)
    requires LegalNumeral(n) && Starts(s, i, NumeralText(n)) && Ends(n, At(s, i + |NumeralText(n)|))
    ensures ParseNumber(s, i) == Ok(NumeralValue(n), i + |NumeralText(n)|)
    ensures i < |s| && (s[i] == MINUS || IsDigit(s[i]))
  {
    hide ParseNumber, OfDec, Number, Strtod, Exact, FractionText, ExponentText, NumeralText, UnsignedText, NumeralValue,
      FractionLaid, ExponentLaid, LegalNumeral, Ends;
    StrtodRead(n);
    var sign: Bytes := if n.negative then [Code('-')] else [];
    var a := i + |sign|;
    StartsSplit(s, i, sign, UnsignedText(n));
    if n.negative {
      StartsByte(s, i, sign, 0);
    }
    NumeralParts(n, s, a);
    var p := a + |n.integer|;
    IntegerStep(n, s, i, a, p);
    NumberEnd(n, s, i, p, p + |FractionText(n.fraction)|, a + |UnsignedText(n)|);
  }

  lemma NumberEnd(n: Numeral, s: Bytes, i: nat, p: nat, f: nat, e: nat)
    requires LegalNumeral(n) && i < p && FractionLaid(n, s, p, f) && ExponentLaid(n, s, f, e)
    requires s[i..e] == NumeralText(n)
    ensures AfterInteger(s, i, p) == Ok(NumeralValue(n), e)
  {
    hide DigitsEnd, OfDec, Number, Strtod, Exact, Atoi, NumeralText;
    StrtodRead(n);
    if n.fraction == [] && n.exponent.NoExponent? && |NumeralText(n)| <= INT_DIGITS10 {
      AtoiRead(n);
    }
  }

  // ---- Values --------------------------------------------------------------------------------------------------------

  /** The depth limit is the only complaint about a legal text. */
  ghost function Outcome(t: Tree, depth: nat, next: nat): Parsed<Json> {
    if depth + Depth(t) <= 200 then Ok(Value(t), next) else Fail(TooDeep)
  }

  /** What may follow a value: a blank, a separator, or the end. */
  ghost predicate IsBoundary(c: byte) {
    IsSpace(c) || c == SLASH || c == COMMA || c == RBRACKET || c == RBRACE || c == 0
  }

  ghost predicate IsValueHead(c: byte) {
    c == MINUS || IsDigit(c) || c in [LOWER_N, LOWER_T, LOWER_F, QUOTE, LBRACKET, LBRACE]
  }

  lemma BoundaryEnds(n: Numeral, c: byte)
    requires IsBoundary(c)
    ensures Ends(n, c)
  {
  }

  lemma NumeralHead(n: Numeral)
    requires LegalNumeral(n)
    ensures NumeralText(n) != [] && IsValueHead(NumeralText(n)[0])
  {
    hide FractionText, ExponentText;
    if !n.negative {
      assert NumeralText(n)[0] == Digits(n.integer)[0];
    }
  }

  lemma TreeHead(t: Tree, st: Strategy)
    requires Legal(t, st)
    ensures TreeText(t) != [] && IsValueHead(TreeText(t)[0])
  {
    hide NumeralText, CharsText, BlanksText, ElementsText, EntriesText;
    if t.NumberTree? {
      NumeralHead(t.numeral);
    }
  }

  /** Blanks and then a boundary begin with a boundary. */
  lemma BoundaryAfter(bs: seq<Blank>, s: Bytes, i: nat, st: Strategy, final: bool)
    requires LegalBlanks(bs, st, final) && Starts(s, i, BlanksText(bs)) && IsBoundary(At(s, i + |BlanksText(bs)|))
    ensures IsBoundary(At(s, i))
  {
    if bs != [] {
      assert BlanksText(bs)[0] == BlankText(bs[0])[0];
      StartsByte(s, i, BlanksText(bs), 0);
    }
  }

  // One unfolding of the reference reader for each kind of first token.

  lemma NumberValue(s: Bytes, i: nat, depth: nat, st: Strategy)
    requires i < |s| && depth <= MAX_DEPTH && NextToken(s, i, st) == Ok(s[i], i + 1)
    requires s[i] == MINUS || IsDigit(s[i])
    ensures ParseValue(s, i, depth, st) == ParseNumber(s, i)
  {
    hide NextToken, Members, Elements, ParseNumber;
  }

  lemma StringValue(s: Bytes, i: nat, depth: nat, st: Strategy)
    requires i < |s| && depth <= MAX_DEPTH && NextToken(s, i, st) == Ok(QUOTE, i + 1)
    requires ParseString(s, i + 1).Ok?
    ensures ParseValue(s, i, depth, st) == Ok(Str(ParseString(s, i + 1).value), ParseString(s, i + 1).next)
  {
    hide NextToken, Members, Elements, ParseString;
  }

  lemma WordValue(t: Tree, s: Bytes, i: nat, depth: nat, st: Strategy)
    requires t.NullWord? || t.TrueWord? || t.FalseWord?
    requires Starts(s, i, TreeText(t)) && depth <= MAX_DEPTH
    ensures ParseValue(s, i, depth, st) == Ok(Value(t), i + |TreeText(t)|)
  {
    hide Members, Elements, NextToken, ParseNumber, ParseString;
    var w := TreeText(t);
    StartsByte(s, i, w, 0);
    TokenHere(s, i, st);
    assert s[i..Min(i + |w|, |s|)] == w;
    assert Ascii("true") == TRUE_TEXT && Ascii("false") == FALSE_TEXT && Ascii("null") == NULL_TEXT;
  }

  lemma ArrayValue(s: Bytes, i: nat, depth: nat, st: Strategy)
    requires i < |s| && depth <= 200 && NextToken(s, i, st) == Ok(LBRACKET, i + 1) && NextToken(s, i + 1, st).Ok?
    ensures ParseValue(s, i, depth, st) ==
            if NextToken(s, i + 1, st).value == RBRACKET then Ok(Arr([]), NextToken(s, i + 1, st).next)
            else Elements(s, i + 1, depth, st, [])
  {
    hide NextToken, Members, Elements;
  }

  lemma ObjectValue(s: Bytes, i: nat, depth: nat, st: Strategy)
    requires i < |s| && depth <= 200 && NextToken(s, i, st) == Ok(LBRACE, i + 1) && NextToken(s, i + 1, st).Ok?
    ensures ParseValue(s, i, depth, st) ==
            if NextToken(s, i + 1, st).value == RBRACE then Ok(Obj([]), NextToken(s, i + 1, st).next)
            else Members(s, i + 1, depth, st, [])
  {
    hide NextToken, Members, Elements;
  }

  /** One unfolding of Elements. */
  lemma ElementsStep(s: Bytes, i: nat, depth: nat, st: Strategy, acc: seq<Json>)
    requires i <= |s| && NextToken(s, i, st).Ok?
    requires var r := ParseValue(s, i, depth + 1, st); r.Ok? ==> NextToken(s, r.next, st).Ok?
    ensures var r := ParseValue(s, i, depth + 1, st);
            Elements(s, i, depth, st, acc) ==
            if r.Fail? then r
            else
              var sep := NextToken(s, r.next, st);
              if sep.value == RBRACKET then Ok(Arr(acc + [r.value]), sep.next)
              else if sep.value != COMMA then Fail(ExpectedCommaInList(sep.value))
              else Elements(s, sep.next, depth, st, acc + [r.value])
  {
    hide NextToken, ParseValue;
  }

  /** One unfolding of Members, past the key and the colon. */
  lemma MembersStep(s: Bytes, i: nat, j: nat, q: nat, depth: nat, st: Strategy, acc: seq<Member>)
    requires i <= |s| && NextToken(s, i, st) == Ok(QUOTE, j) && ParseString(s, j).Ok?
    requires NextToken(s, ParseString(s, j).next, st) == Ok(COLON, q)
    requires var r := ParseValue(s, q, depth + 1, st); r.Ok? ==> NextToken(s, r.next, st).Ok?
    ensures q <= |s|
    ensures var r := ParseValue(s, q, depth + 1, st);
            var key := ParseString(s, j).value;
            Members(s, i, depth, st, acc) ==
            if r.Fail? then r
            else
              var sep := NextToken(s, r.next, st);
              if sep.value == RBRACE then Ok(Obj(Insert(acc, key, r.value)), sep.next)
              else if sep.value != COMMA then Fail(ExpectedCommaInObject(sep.value))
              else Members(s, sep.next, depth, st, Insert(acc, key, r.value))
  {
    hide NextToken, ParseValue, ParseString;
  }

  /** A value at `i` reads as what it stands for, or fails on the depth limit. */
  lemma {:induction false} TreeRead(t: Tree, s: Bytes, i: nat, depth: nat, st: Strategy)
    requires Legal(t, st) && Starts(s, i, TreeText(t))
    requires t.NumberTree? ==> Ends(t.numeral, At(s, i + |TreeText(t)|))
    ensures ParseValue(s, i, depth, st) == Outcome(t, depth, i + |TreeText(t)|)
    decreases t, 1
  {
    assert i <= |s|;
    hide *;
    if depth > 200 {
      DepthExceeded(s, i, depth, st);
      OutcomeCases(t, depth, i + |TreeText(t)|);
    } else if t.ArrayTree? {
      ArrayRead(t, s, i, depth, st);
    } else if t.ObjectTree? {
      ObjectRead(t, s, i, depth, st);
    } else {
      ScalarRead(t, s, i, depth, st);
      ScalarOutcome(t, depth, i + |TreeText(t)|);
    }
  }

  lemma DepthExceeded(s: Bytes, i: nat, depth: nat, st: Strategy)
    requires i <= |s| && depth > 200
    ensures ParseValue(s, i, depth, st) == Fail(TooDeep)
  {
    hide NextToken, Members, Elements, ParseNumber, ParseString, Expect;
  }

  lemma ScalarOutcome(t: Tree, depth: nat, next: nat)
    requires !t.ArrayTree? && !t.ObjectTree? && depth <= 200
    ensures Outcome(t, depth, next) == Ok(Value(t), next)
  {
  }

  lemma ScalarRead(t: Tree, s: Bytes, i: nat, depth: nat, st: Strategy)
    requires Legal(t, st) && !t.ArrayTree? && !t.ObjectTree? && depth <= 200
    requires Starts(s, i, TreeText(t)) && (t.NumberTree? ==> Ends(t.numeral, At(s, i + |TreeText(t)|)))
    ensures ParseValue(s, i, depth, st) == Ok(Value(t), i + |TreeText(t)|)
  {
    hide ParseValue, NextToken, ParseString, ParseNumber, NumeralText, NumeralValue, Ends, LegalNumeral, LegalChars,
      StringTreeText, Render;
    match t
    case NumberTree(n) =>
      NumberRead(n, s, i);
      TokenHere(s, i, st);
      NumberValue(s, i, depth, st);
    case StringTree(cs) =>
      StringRead(cs, s, i);
      TokenHere(s, i, st);
      StringValue(s, i, depth, st);
    case _ => WordValue(t, s, i, depth, st);
  }

  /** The three parts of an element at `i`. */
  lemma ElementSplit(e: Element, s: Bytes, i: nat)
    requires Starts(s, i, ElementText(e))
    ensures var j := i + |BlanksText(e.before)|;
            var n := j + |TreeText(e.tree)|;
            && Starts(s, i, BlanksText(e.before)) && Starts(s, j, TreeText(e.tree)) && Starts(s, n, BlanksText(e.after))
            && n + |BlanksText(e.after)| == i + |ElementText(e)| <= |s|
  {
    hide TreeText, BlanksText, Starts;
    var x, y, z := BlanksText(e.before), TreeText(e.tree), BlanksText(e.after);
    StartsSplit(s, i, x, y + z);
    StartsSplit(s, i + |x|, y, z);
  }

  lemma SeparatorsBound(s: Bytes, k: nat)
    requires k < |s| && (s[k] == COMMA || s[k] == RBRACKET || s[k] == RBRACE)
    ensures IsBoundary(At(s, k)) && !IsSpace(s[k]) && s[k] != SLASH
  {
  }

  /** An element at `i`, blanks included, and the separator behind it. */
  lemma {:induction false} ElementRead(e: Element, s: Bytes, i: nat, depth: nat, st: Strategy)
    requires LegalElement(e, st) && Starts(s, i, ElementText(e))
    requires var k := i + |ElementText(e)|; k < |s| && (s[k] == COMMA || s[k] == RBRACKET || s[k] == RBRACE)
    ensures NextToken(s, i, st).Ok? && IsValueHead(NextToken(s, i, st).value)
    ensures var k := i + |ElementText(e)|;
            var n := k - |BlanksText(e.after)|;
            && i <= n <= |s| && NextToken(s, n, st) == Ok(s[k], k + 1)
            && ParseValue(s, i, depth, st) == Outcome(e.tree, depth, n)
    decreases e
  {
    hide TreeText, BlanksText, LegalBlanks, Legal, NextToken, ParseValue, Outcome, Starts, ElementText, IsBoundary;
    ElementSplit(e, s, i);
    SeparatorsBound(s, i + |ElementText(e)|);
    var j := i + |BlanksText(e.before)|;
    var n := j + |TreeText(e.tree)|;
    TreeHead(e.tree, st);
    StartsByte(s, j, TreeText(e.tree), 0);
    TokenRead(e.before, s, i, st);
    TokenRead(e.after, s, n, st);
    BoundaryAfter(e.after, s, n, st, false);
    if e.tree.NumberTree? {
      BoundaryEnds(e.tree.numeral, At(s, n));
    }
    TreeRead(e.tree, s, j, depth, st);
    ValueFromToken(s, i, depth, st);
  }

  ghost function ElementsOutcome(es: seq<Element>, depth: nat, acc: seq<Json>, next: nat): Parsed<Json> {
    if depth + ElementsDepth(es) <= 200 then Ok(Arr(acc + Values(es)), next) else Fail(TooDeep)
  }

  lemma ElementsOutcomeStep(es: seq<Element>, depth: nat, acc: seq<Json>, next: nat)
    requires es != []
    ensures ElementsOutcome(es, depth, acc, next) ==
            if depth + 1 + Depth(es[0].tree) > 200 then Fail(TooDeep)
            else if |es| == 1 then Ok(Arr(acc + [Value(es[0].tree)]), next)
            else ElementsOutcome(es[1..], depth, acc + [Value(es[0].tree)], next)
  {
    hide Value, Depth;
    if |es| == 1 {
      assert es[1..] == [] && Values(es) == [Value(es[0].tree)];
    } else {
      assert acc + Values(es) == acc + [Value(es[0].tree)] + Values(es[1..]);
    }
  }

  lemma ElementsSplit(es: seq<Element>, s: Bytes, i: nat)
    requires es != [] && Starts(s, i, ElementsText(es))
    ensures Starts(s, i, ElementText(es[0]))
    ensures var k := i + |ElementText(es[0])|;
            && k < |s|
            && (if |es| == 1 then s[k] == RBRACKET && |ElementsText(es)| == |ElementText(es[0])| + 1
                else
                  && s[k] == COMMA && Starts(s, k + 1, ElementsText(es[1..]))
                  && |ElementsText(es)| == |ElementText(es[0])| + 1 + |ElementsText(es[1..])|)
  {
    hide ElementText, Starts;
    var k := i + |ElementText(es[0])|;
    if |es| == 1 {
      StartsSplit(s, i, ElementText(es[0]), [Code(']')]);
      StartsByte(s, k, [Code(']')], 0);
    } else {
      StartsSplit(s, i, ElementText(es[0]), [Code(',')] + ElementsText(es[1..]));
      StartsSplit(s, k, [Code(',')], ElementsText(es[1..]));
      StartsByte(s, k, [Code(',')], 0);
    }
  }

  lemma {:induction false} ElementsRead(es: seq<Element>, s: Bytes, i: nat, depth: nat, st: Strategy, acc: seq<Json>)
    requires es != [] && (forall e :: e in es ==> LegalElement(e, st)) && Starts(s, i, ElementsText(es))
    ensures Elements(s, i, depth, st, acc) == ElementsOutcome(es, depth, acc, i + |ElementsText(es)|)
    ensures NextToken(s, i, st).Ok? && IsValueHead(NextToken(s, i, st).value)
    decreases es
  {
    hide *;
    var e := es[0];
    assert e in es;
    ElementsSplit(es, s, i);
    var k := i + |ElementText(e)|;
    SeparatorBytes();
    ElementRead(e, s, i, depth + 1, st);
    OutcomeCases(e.tree, depth + 1, k - |BlanksText(e.after)|);
    ElementsOutcomeStep(es, depth, acc, i + |ElementsText(es)|);
    ElementsStep(s, i, depth, st, acc);
    if |es| > 1 {
      assert forall x :: x in es[1..] ==> x in es;
      ElementsRead(es[1..], s, k + 1, depth, st, acc + [Value(e.tree)]);
    }
  }

  lemma OutcomeCases(t: Tree, depth: nat, next: nat)
    ensures Outcome(t, depth, next) == if depth + Depth(t) <= 200 then Ok(Value(t), next) else Fail(TooDeep)
  {
  }

  lemma SeparatorBytes()
    ensures COMMA != RBRACKET && COMMA != RBRACE && RBRACKET != RBRACE
  {
  }

  lemma ArrayText(t: Tree)
    requires t.ArrayTree?
    ensures TreeText(t) == [LBRACKET] + if t.elements == [] then BlanksText(t.gap) + [RBRACKET] else ElementsText(t.elements)
  {
    hide BlanksText, ElementsText;
  }

  lemma LegalArray(t: Tree, st: Strategy)
    requires t.ArrayTree? && Legal(t, st)
    ensures LegalBlanks(t.gap, st, false) && forall e :: e in t.elements ==> LegalElement(e, st)
  {
    hide LegalBlanks, LegalElement;
  }

  lemma ArrayOutcome(t: Tree, depth: nat, next: nat)
    requires t.ArrayTree? && depth <= 200
    ensures Outcome(t, depth, next) ==
            if t.elements == [] then Ok(Arr([]), next) else ElementsOutcome(t.elements, depth, [], next)
  {
    hide Values, ElementsDepth;
    if t.elements == [] {
      EmptyParts();
    } else {
      assert [] + Values(t.elements) == Values(t.elements);
    }
  }

  lemma EmptyParts()
    ensures Values([]) == [] && ElementsDepth([]) == 0 && EntriesDepth([]) == 0 && AddEntries([], []) == []
  {
  }

  /** A bracket or brace and the byte behind the blanks that follow it. */
  lemma GapRead(gap: seq<Blank>, s: Bytes, i: nat, st: Strategy, c: byte)
    requires LegalBlanks(gap, st, false) && Starts(s, i, BlanksText(gap) + [c]) && (c == RBRACKET || c == RBRACE)
    ensures NextToken(s, i, st) == Ok(c, i + |BlanksText(gap) + [c]|)
  {
    hide LegalBlanks, BlanksText, NextToken;
    StartsSplit(s, i, BlanksText(gap), [c]);
    StartsByte(s, i + |BlanksText(gap)|, [c], 0);
    TokenRead(gap, s, i, st);
  }

  lemma HeadBytes()
    ensures !IsValueHead(RBRACKET) && !IsSpace(LBRACKET) && !IsSpace(LBRACE) && LBRACKET != SLASH && LBRACE != SLASH
    ensures !IsSpace(QUOTE) && QUOTE != SLASH && QUOTE != RBRACE && !IsSpace(COLON) && COLON != SLASH
  {
  }

  lemma {:induction false} ArrayRead(t: Tree, s: Bytes, i: nat, depth: nat, st: Strategy)
    requires t.ArrayTree? && Legal(t, st) && Starts(s, i, TreeText(t)) && depth <= 200
    ensures ParseValue(s, i, depth, st) == Outcome(t, depth, i + |TreeText(t)|)
    decreases t, 0
  {
    hide *;
    ArrayText(t);
    LegalArray(t, st);
    HeadBytes();
    var es := t.elements;
    var body := if es == [] then BlanksText(t.gap) + [RBRACKET] else ElementsText(es);
    StartsSplit(s, i, [LBRACKET], body);
    StartsByte(s, i, [LBRACKET], 0);
    TokenHere(s, i, st);
    if es == [] {
      GapRead(t.gap, s, i + 1, st, RBRACKET);
    } else {
      ElementsRead(es, s, i + 1, depth, st, []);
    }
    ArrayValue(s, i, depth, st);
    ArrayOutcome(t, depth, i + |TreeText(t)|);
  }

  // ---- Objects ---------------------------------------------------------------------------------------------------------

  /** An entry at `i`: its key, its colon just before `q`, and its element from there. */
  lemma EntryRead(e: Entry, s: Bytes, i: nat, st: Strategy)
    requires LegalEntry(e, st) && Starts(s, i, EntryText(e))
    ensures var j := i + |BlanksText(e.before)|;
            var p := j + |StringTreeText(e.key)|;
            var q := p + |BlanksText(e.middle)| + 1;
            && NextToken(s, i, st) == Ok(QUOTE, j + 1) && j + 1 <= |s|
            && ParseString(s, j + 1) == Ok(Render(Tokens(e.key)), p)
            && NextToken(s, p, st) == Ok(COLON, q)
            && Starts(s, q, ElementText(e.element)) && q + |ElementText(e.element)| == i + |EntryText(e)|
  {
    hide BlanksText, LegalBlanks, LegalChars, LegalElement, ElementText, StringTreeText, EntryText, NextToken, ParseString,
      Render, Tokens, Starts;
    HeadBytes();
    EntrySplit(e, s, i);
    var j := i + |BlanksText(e.before)|;
    StringRead(e.key, s, j);
    TokenRead(e.before, s, i, st);
    TokenRead(e.middle, s, j + |StringTreeText(e.key)|, st);
  }

  /** The parts of an entry at `i`. */
  lemma EntrySplit(e: Entry, s: Bytes, i: nat)
    requires Starts(s, i, EntryText(e))
    ensures var j := i + |BlanksText(e.before)|;
            var p := j + |StringTreeText(e.key)|;
            var c := p + |BlanksText(e.middle)|;
            && Starts(s, i, BlanksText(e.before)) && Starts(s, j, StringTreeText(e.key))
            && Starts(s, p, BlanksText(e.middle)) && c < |s| && s[c] == COLON
            && Starts(s, c + 1, ElementText(e.element)) && c + 1 + |ElementText(e.element)| == i + |EntryText(e)| <= |s|
  {
    hide BlanksText, ElementText, StringTreeText, Starts;
    var x, k, y, z := BlanksText(e.before), StringTreeText(e.key), BlanksText(e.middle), ElementText(e.element);
    var j := i + |x|;
    var p := j + |k|;
    StartsSplit(s, i, x, k + (y + ([Code(':')] + z)));
    StartsSplit(s, j, k, y + ([Code(':')] + z));
    StartsSplit(s, p, y, [Code(':')] + z);
    StartsSplit(s, p + |y|, [Code(':')], z);
    StartsByte(s, p + |y|, [Code(':')], 0);
  }

  ghost function EntriesOutcome(es: seq<Entry>, depth: nat, acc: seq<Member>, next: nat): Parsed<Json> {
    if depth + EntriesDepth(es) <= 200 then Ok(Obj(AddEntries(acc, es)), next) else Fail(TooDeep)
  }

  lemma EntriesOutcomeStep(es: seq<Entry>, depth: nat, acc: seq<Member>, next: nat)
    requires es != []
    ensures var acc' := Insert(acc, Render(Tokens(es[0].key)), Value(es[0].element.tree));
            EntriesOutcome(es, depth, acc, next) ==
            if depth + 1 + Depth(es[0].element.tree) > 200 then Fail(TooDeep)
            else if |es| == 1 then Ok(Obj(acc'), next)
            else EntriesOutcome(es[1..], depth, acc', next)
  {
    hide Value, Depth, Insert, Render, Tokens;
    var acc' := Insert(acc, Render(Tokens(es[0].key)), Value(es[0].element.tree));
    assert AddEntries(acc, es) == AddEntries(acc', es[1..]);
    if |es| == 1 {
      assert es[1..] == [] && AddEntries(acc', []) == acc';
    }
  }

  lemma EntriesSplit(es: seq<Entry>, s: Bytes, i: nat)
    requires es != [] && Starts(s, i, EntriesText(es))
    ensures Starts(s, i, EntryText(es[0]))
    ensures var k := i + |EntryText(es[0])|;
            && k < |s|
            && (if |es| == 1 then s[k] == RBRACE && |EntriesText(es)| == |EntryText(es[0])| + 1
                else
                  && s[k] == COMMA && Starts(s, k + 1, EntriesText(es[1..]))
                  && |EntriesText(es)| == |EntryText(es[0])| + 1 + |EntriesText(es[1..])|)
  {
    hide EntryText, Starts;
    var k := i + |EntryText(es[0])|;
    if |es| == 1 {
      StartsSplit(s, i, EntryText(es[0]), [Code('}')]);
      StartsByte(s, k, [Code('}')], 0);
    } else {
      StartsSplit(s, i, EntryText(es[0]), [Code(',')] + EntriesText(es[1..]));
      StartsSplit(s, k, [Code(',')], EntriesText(es[1..]));
      StartsByte(s, k, [Code(',')], 0);
    }
  }

  lemma {:induction false} EntriesRead(es: seq<Entry>, s: Bytes, i: nat, depth: nat, st: Strategy, acc: seq<Member>)
    requires es != [] && (forall e :: e in es ==> LegalEntry(e, st)) && Starts(s, i, EntriesText(es))
    ensures Members(s, i, depth, st, acc) == EntriesOutcome(es, depth, acc, i + |EntriesText(es)|)
    ensures NextToken(s, i, st).Ok? && NextToken(s, i, st).value == QUOTE
    decreases es
  {
    hide *;
    var e := es[0];
    assert e in es;
    LegalEntryElement(e, st);
    EntriesSplit(es, s, i);
    EntryRead(e, s, i, st);
    SeparatorBytes();
    var k := i + |EntryText(e)|;
    var j := i + |BlanksText(e.before)|;
    var q := j + |StringTreeText(e.key)| + |BlanksText(e.middle)| + 1;
    ElementRead(e.element, s, q, depth + 1, st);
    OutcomeCases(e.element.tree, depth + 1, k - |BlanksText(e.element.after)|);
    EntriesOutcomeStep(es, depth, acc, i + |EntriesText(es)|);
    MembersStep(s, i, j + 1, q, depth, st, acc);
    if |es| > 1 {
      assert forall x :: x in es[1..] ==> x in es;
      EntriesRead(es[1..], s, k + 1, depth, st, Insert(acc, Render(Tokens(e.key)), Value(e.element.tree)));
    }
  }

  lemma LegalEntryElement(e: Entry, st: Strategy)
    requires LegalEntry(e, st)
    ensures LegalElement(e.element, st) && e.element < e
  {
  }

  lemma ObjectText(t: Tree)
    requires t.ObjectTree?
    ensures TreeText(t) == [LBRACE] + if t.entries == [] then BlanksText(t.gap) + [RBRACE] else EntriesText(t.entries)
  {
    hide BlanksText, EntriesText;
  }

  lemma LegalObject(t: Tree, st: Strategy)
    requires t.ObjectTree? && Legal(t, st)
    ensures LegalBlanks(t.gap, st, false) && forall e :: e in t.entries ==> LegalEntry(e, st)
  {
    hide LegalBlanks, LegalEntry;
  }

  lemma ObjectOutcome(t: Tree, depth: nat, next: nat)
    requires t.ObjectTree? && depth <= 200
    ensures Outcome(t, depth, next) ==
            if t.entries == [] then Ok(Obj([]), next) else EntriesOutcome(t.entries, depth, [], next)
  {
    hide AddEntries, EntriesDepth;
    EmptyParts();
  }

  lemma {:induction false} ObjectRead(t: Tree, s: Bytes, i: nat, depth: nat, st: Strategy)
    requires t.ObjectTree? && Legal(t, st) && Starts(s, i, TreeText(t)) && depth <= 200
    ensures ParseValue(s, i, depth, st) == Outcome(t, depth, i + |TreeText(t)|)
    decreases t, 0
  {
    hide *;
    ObjectText(t);
    LegalObject(t, st);
    HeadBytes();
    var es := t.entries;
    var body := if es == [] then BlanksText(t.gap) + [RBRACE] else EntriesText(es);
    StartsSplit(s, i, [LBRACE], body);
    StartsByte(s, i, [LBRACE], 0);
    TokenHere(s, i, st);
    if es == [] {
      GapRead(t.gap, s, i + 1, st, RBRACE);
    } else {
      EntriesRead(es, s, i + 1, depth, st, []);
    }
    ObjectValue(s, i, depth, st);
    ObjectOutcome(t, depth, i + |TreeText(t)|);
  }

  // ---- Whole texts ------------------------------------------------------------------------------------------------------

  /** Every legal text is accepted with its value, or rejected for its depth alone. */
  lemma TextRead(e: Element, st: Strategy)
    requires LegalText(e, st)
    ensures ParseText(ElementText(e), st) == Outcome(e.tree, 0, |ElementText(e)|)
  {
    hide TreeText, BlanksText, LegalBlanks, Legal, NextToken, ParseValue, SkipGarbage, Outcome, Starts, ElementText,
      IsBoundary, NoBlank;
    var s := ElementText(e);
    WholeText(s, st);
    ElementSplit(e, s, 0);
    var j := |BlanksText(e.before)|;
    var n := j + |TreeText(e.tree)|;
    TreeHead(e.tree, st);
    StartsByte(s, j, TreeText(e.tree), 0);
    TokenRead(e.before, s, 0, st);
    BlanksSkipped(e.after, s, n, st);
    BoundaryAfter(e.after, s, n, st, true);
    if e.tree.NumberTree? {
      BoundaryEnds(e.tree.numeral, At(s, n));
    }
    TreeRead(e.tree, s, j, 0, st);
    ValueFromToken(s, 0, 0, st);
    OutcomeCases(e.tree, 0, n);
    OutcomeCases(e.tree, 0, |s|);
  }

  lemma WholeText(s: Bytes, st: Strategy)
    ensures Starts(s, 0, s) && IsBoundary(At(s, |s|)) && NoBlank(s, |s|, st)
  {
    assert s[0..|s|] == s;
  }
}
