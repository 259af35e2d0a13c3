/** The parser accepts nothing but the legal JSON texts, so it accepts exactly those. */
module JsonLanguage {
  import opened Decimal
  import opened Characters
  import opened JsonValue
  import opened JsonString
  import opened JsonGrammar
  import opened JsonSyntax
  import opened JsonAccepted

  lemma StartsJoin(s: Bytes, i: nat, a: Bytes, b: Bytes)
    requires Starts(s, i, a) && Starts(s, i + |a|, b)
    ensures Starts(s, i, a + b)
  {
    assert s[i..i + |a| + |b|] == s[i..i + |a|] + s[i + |a|..i + |a| + |b|];
  }

  lemma StartsOne(s: Bytes, i: nat)
    requires i < |s|
    ensures Starts(s, i, [s[i]])
  {
  }

  // ---- Blanks ---------------------------------------------------------------------------------------------------

  lemma SpaceOf(c: byte) returns (b: Blank)
    requires IsSpace(c)
    ensures b.Space? && LegalBlank(b, STANDARD) && LegalBlank(b, COMMENTS) && BlankText(b) == [c]
    ensures c == LF ==> b == Space('\n')
  {
    b := Space(if c == SPACE then ' ' else if c == TAB then '\t' else if c == LF then '\n' else '\r');
  }

  lemma {:induction false} LineText(s: Bytes, i: nat)
    requires i <= |s|
    ensures var j := LineEnd(s, i); (forall k :: i <= k < j ==> s[k] != LF) && (j < |s| ==> s[j] == LF)
    decreases |s| - i
  {
    if i < |s| && s[i] != LF {
      LineText(s, i + 1);
    }
  }

  lemma {:induction false} BlockText(s: Bytes, i: nat)
    requires i <= |s| && BlockEnd(s, i).Ok?
    ensures var j := BlockEnd(s, i).next - 2;
            && i <= j && j + 2 <= |s| && s[j] == STAR && s[j + 1] == SLASH
            && forall k :: i <= k < j ==> !(s[k] == STAR && s[k + 1] == SLASH)
    decreases |s| - i
  {
    if !(s[i] == STAR && s[i + 1] == SLASH) {
      BlockText(s, i + 1);
    }
  }

  /** The comment that stands at `i`. */
  lemma CommentOf(s: Bytes, i: nat) returns (b: Blank)
    requires i < |s| && s[i] == SLASH && Comment(s, i).Ok?
    ensures !b.Space? && LegalBlank(b, COMMENTS) && Starts(s, i, BlankText(b))
    ensures i + |BlankText(b)| == Comment(s, i).next
    ensures b.LineComment? && Comment(s, i).next < |s| ==> s[Comment(s, i).next] == LF
  {
    var j := Comment(s, i).next;
    if s[i + 1] == SLASH {
      LineText(s, i + 2);
      b := LineComment(s[i + 2..j]);
      assert Ascii("//") == s[i..i + 2];
      assert s[i..j] == s[i..i + 2] + s[i + 2..j];
    } else {
      BlockText(s, i + 2);
      var text := s[i + 2..j - 2];
      b := BlockComment(text);
      assert Ascii("/*") == s[i..i + 2] && Ascii("*/") == s[j - 2..j];
      assert s[i..j] == s[i..i + 2] + (text + s[j - 2..j]);
      var body := text + Ascii("*/");
      assert body == s[i + 2..j];
      forall k | 0 <= k < |text| ensures !ClosesAt(body, k) {
        assert body[k] == s[i + 2 + k] && body[k + 1] == s[i + 3 + k];
      }
    }
  }

  /** Whatever is skipped is a row of blanks. */
  lemma {:induction false} BlanksOf(s: Bytes, i: nat, st: Strategy) returns (bs: seq<Blank>)
    requires i <= |s| && SkipGarbage(s, i, st).Ok?
    ensures var j := SkipGarbage(s, i, st).next;
            LegalBlanks(bs, st, j == |s|) && Starts(s, i, BlanksText(bs)) && i + |BlanksText(bs)| == j
    ensures i < |s| && s[i] == LF ==> bs != [] && bs[0] == Space('\n')
    ensures i == |s| ==> bs == []
    decreases |s| - i
  {
    hide SkipGarbage, Comment, BlankText, LegalBlank;
    if i < |s| && IsSpace(s[i]) {
      SpaceSkipped(s, i, st);
      var b := SpaceOf(s[i]);
      var rest := BlanksOf(s, i + 1, st);
      bs := [b] + rest;
      StartsOne(s, i);
      StartsJoin(s, i, BlankText(b), BlanksText(rest));
    } else if i < |s| && s[i] == SLASH && st.COMMENTS? {
      CommentGoesOn(s, i, st);
      var b := CommentOf(s, i);
      var rest := BlanksOf(s, Comment(s, i).next, st);
      bs := [b] + rest;
      StartsJoin(s, i, BlankText(b), BlanksText(rest));
    } else {
      NothingSkipped(s, i, st);
      bs := [];
    }
  }

  lemma CommentGoesOn(s: Bytes, i: nat, st: Strategy)
    requires i < |s| && s[i] == SLASH && st.COMMENTS? && SkipGarbage(s, i, st).Ok?
    ensures Comment(s, i).Ok? && SkipGarbage(s, i, st) == SkipGarbage(s, Comment(s, i).next, st)
  {
    hide Comment;
    assert SkipSpace(s, i) == i;
  }

  /** The blanks before a token. */
  lemma BlanksBefore(s: Bytes, i: nat, st: Strategy) returns (bs: seq<Blank>)
    requires i <= |s| && NextToken(s, i, st).Ok?
    ensures var j := NextToken(s, i, st).next - 1;
            LegalBlanks(bs, st, false) && Starts(s, i, BlanksText(bs)) && i + |BlanksText(bs)| == j
  {
    hide SkipGarbage, LegalBlanks, BlanksText;
    bs := BlanksOf(s, i, st);
  }

  // ---- Strings -----------------------------------------------------------------------------------------------------

  lemma HexOf(c: byte) returns (h: Hex)
    requires IsHex(c)
    ensures h.value < 16 && HexText(h) == c
  {
    h := Hex(HexDigit(c), c <= 70);
  }

  lemma UnicodeOf(s: Bytes, i: nat) returns (c: Char)
    requires i + 6 <= |s| && s[i] == BACKSLASH && s[i + 1] == LOWER_U && forall k :: i + 2 <= k < i + 6 ==> IsHex(s[k])
    ensures c.Unicode? && LegalChar(c) && Starts(s, i, CharText(c)) && |CharText(c)| == 6
  {
    hide HexText, IsHex;
    var h0 := HexOf(s[i + 2]);
    var h1 := HexOf(s[i + 3]);
    var h2 := HexOf(s[i + 4]);
    var h3 := HexOf(s[i + 5]);
    c := Unicode([h0, h1, h2, h3]);
    assert s[i..i + 6] == CharText(c);
  }

  lemma EscapeOf(c: byte) returns (e: char)
    requires IsSimpleEscape(c)
    ensures LegalChar(Escape(e)) && Code(e) == c
  {
    e := if c == 98 then 'b' else if c == 102 then 'f' else if c == 110 then 'n' else if c == 114 then 'r'
         else if c == 116 then 't' else if c == QUOTE then '"' else if c == BACKSLASH then '\\' else '/';
  }

  /** The first character of a string literal. */
  lemma CharOf(s: Bytes, i: nat) returns (c: Char)
    requires i < |s| && s[i] != QUOTE && Lex(s, i).Ok?
    ensures LegalChar(c) && Starts(s, i, CharText(c)) && CharText(c) != []
    ensures Lex(s, i + |CharText(c)|).Ok? && Lex(s, i).next == Lex(s, i + |CharText(c)|).next
  {
    hide Lex, LegalChar, CharText, Starts, Hex4, SimpleEscape;
    if s[i] != BACKSLASH {
      PlainThere(s, i);
      c := Plain(s[i]);
      PlainIs(s, i);
    } else {
      EscapeThere(s, i);
      if s[i + 1] == LOWER_U {
        c := UnicodeOf(s, i);
      } else {
        var e := EscapeOf(s[i + 1]);
        c := Escape(e);
        EscapeIs(s, i, e);
      }
    }
  }

  lemma PlainThere(s: Bytes, i: nat)
    requires i < |s| && s[i] != QUOTE && s[i] != BACKSLASH && Lex(s, i).Ok?
    ensures s[i] > 0x1f && Lex(s, i + 1).Ok? && Lex(s, i).next == Lex(s, i + 1).next
  {
  }

  lemma PlainIs(s: Bytes, i: nat)
    requires i < |s| && s[i] != QUOTE && s[i] != BACKSLASH && s[i] > 0x1f
    ensures LegalChar(Plain(s[i])) && CharText(Plain(s[i])) == [s[i]] && Starts(s, i, [s[i]])
  {
  }

  lemma EscapeThere(s: Bytes, i: nat)
    requires i < |s| && s[i] == BACKSLASH && Lex(s, i).Ok?
    ensures i + 1 < |s|
    ensures if s[i + 1] == LOWER_U then
              && i + 6 <= |s| && (forall k :: i + 2 <= k < i + 6 ==> IsHex(s[k]))
              && Lex(s, i + 6).Ok? && Lex(s, i).next == Lex(s, i + 6).next
            else IsSimpleEscape(s[i + 1]) && Lex(s, i + 2).Ok? && Lex(s, i).next == Lex(s, i + 2).next
  {
    hide Hex4, SimpleEscape, IsHex;
    if s[i + 1] == LOWER_U {
      var esc := s[i + 2..Min(i + 6, |s|)];
      assert forall k :: 0 <= k < 4 ==> IsHex(esc[k]);
      forall k | i + 2 <= k < i + 6 ensures IsHex(s[k]) {
        assert esc[k - (i + 2)] == s[k];
      }
    }
  }

  lemma EscapeIs(s: Bytes, i: nat, e: char)
    requires i + 1 < |s| && s[i] == BACKSLASH && s[i + 1] == Code(e)
    ensures Starts(s, i, CharText(Escape(e))) && |CharText(Escape(e))| == 2
  {
    assert s[i..i + 2] == CharText(Escape(e));
  }

  lemma {:induction false} CharsOf(s: Bytes, i: nat) returns (cs: seq<Char>)
    requires i <= |s| && Lex(s, i).Ok?
    ensures LegalChars(cs) && Starts(s, i, CharsText(cs) + [QUOTE]) && i + |CharsText(cs)| + 1 == Lex(s, i).next
    decreases |s| - i
  {
    hide Lex, CharText, LegalChar, Starts, CharsText;
    LexStarts(s, i);
    if s[i] == QUOTE {
      cs := [];
      StartsOne(s, i);
      NoChars();
    } else {
      var c := CharOf(s, i);
      var rest := CharsOf(s, i + |CharText(c)|);
      cs := [c] + rest;
      StartsJoin(s, i, CharText(c), CharsText(rest) + [QUOTE]);
      OneMoreChar(c, rest);
    }
  }

  lemma LexStarts(s: Bytes, i: nat)
    requires i <= |s| && Lex(s, i).Ok?
    ensures i < |s| && (s[i] == QUOTE ==> Lex(s, i).next == i + 1)
  {
  }

  lemma NoChars()
    ensures CharsText([]) + [QUOTE] == [QUOTE] && |CharsText([])| == 0
  {
  }

  lemma OneMoreChar(c: Char, rest: seq<Char>)
    ensures CharsText([c] + rest) + [QUOTE] == CharText(c) + (CharsText(rest) + [QUOTE])
    ensures |CharsText([c] + rest)| == |CharText(c)| + |CharsText(rest)|
  {
    hide CharText;
    assert ([c] + rest)[1..] == rest;
  }

  lemma StringOf(s: Bytes, i: nat) returns (cs: seq<Char>)
    requires i < |s| && s[i] == QUOTE && ParseString(s, i + 1).Ok?
    ensures LegalChars(cs) && Starts(s, i, StringTreeText(cs)) && i + |StringTreeText(cs)| == ParseString(s, i + 1).next
  {
    hide Lex, LegalChars, CharsText;
    cs := CharsOf(s, i + 1);
    StartsOne(s, i);
    StartsJoin(s, i, [QUOTE], CharsText(cs) + [QUOTE]);
  }

  // ---- Numbers --------------------------------------------------------------------------------------------------------

  /** The digits that stand from `i` up to `j`. */
  lemma DigitsBetween(s: Bytes, i: nat, j: nat) returns (ds: seq<nat>)
    requires i <= j <= |s| && AllDigits(s[i..j])
    ensures AreDigits(ds) && |ds| == j - i && Starts(s, i, Digits(ds))
    ensures ds != [] ==> (ds[0] == 0 <==> s[i] == ZERO)
  {
    ds := DigitsOf(s[i..j]);
    if ds != [] {
      assert Digits(ds)[0] == s[i];
    }
  }

  lemma ExponentOf(s: Bytes, start: nat, p: nat) returns (e: Exponent)
    requires start < p <= |s| && AfterFraction(s, start, p).Ok?
    ensures e.Power? ==> AreDigits(e.digits) && e.digits != []
    ensures Starts(s, p, ExponentText(e)) && p + |ExponentText(e)| == AfterFraction(s, start, p).next
  {
    hide AfterFraction, DigitsEnd, Starts, SignText, Digits;
    ExponentCases(s, start, p);
    NoMore(s, p);
    if IsExponentMark(At(s, p)) {
      var sign := SignAt(s, p + 1);
      var q := if sign.NoSign? then p + 1 else p + 2;
      var ds := DigitsBetween(s, q, DigitsEnd(s, q));
      DigitsThere(s, q);
      MarkThere(s, p);
      SignThere(s, p + 1, sign);
      e := Power(s[p] == UPPER_E, sign, ds);
      StartsJoin(s, p + 1, SignText(sign), Digits(ds));
      StartsJoin(s, p, [if s[p] == UPPER_E then Code('E') else Code('e')], SignText(sign) + Digits(ds));
    } else {
      e := NoExponent;
    }
  }

  function SignAt(s: Bytes, i: nat): Sign
    requires i <= |s|
  {
    if At(s, i) == PLUS then Plus else if At(s, i) == MINUS then Minus else NoSign
  }

  lemma ExponentCases(s: Bytes, start: nat, p: nat)
    requires start < p <= |s| && AfterFraction(s, start, p).Ok?
    ensures if IsExponentMark(At(s, p)) then
              var q := if SignAt(s, p + 1).NoSign? then p + 1 else p + 2;
              q <= |s| && IsDigit(At(s, q)) && AfterFraction(s, start, p).next == DigitsEnd(s, q)
            else AfterFraction(s, start, p).next == p
  {
    hide Strtod, DigitsEnd;
  }

  lemma SignThere(s: Bytes, i: nat, sign: Sign)
    requires i <= |s| && (sign.Plus? ==> At(s, i) == PLUS) && (sign.Minus? ==> At(s, i) == MINUS)
    ensures Starts(s, i, SignText(sign)) && |SignText(sign)| == if sign.NoSign? then 0 else 1
  {
  }

  lemma MarkThere(s: Bytes, i: nat)
    requires i <= |s| && IsExponentMark(At(s, i))
    ensures i < |s| && Starts(s, i, [if s[i] == UPPER_E then Code('E') else Code('e')])
  {
  }

  lemma DigitsThere(s: Bytes, i: nat)
    requires i <= |s|
    ensures IsDigit(At(s, i)) ==> DigitsEnd(s, i) > i
  {
  }

  lemma FractionOf(s: Bytes, start: nat, p: nat) returns (ds: seq<nat>, f: nat)
    requires start < p <= |s| && AfterInteger(s, start, p).Ok?
    ensures AreDigits(ds) && p <= f <= |s| && Starts(s, p, FractionText(ds)) && p + |FractionText(ds)| == f
    ensures ds == [] ==> f == p
    ensures if ds == [] && !IsExponentMark(At(s, p)) then AfterInteger(s, start, p).next == p
            else AfterFraction(s, start, f).Ok? && AfterFraction(s, start, f).next == AfterInteger(s, start, p).next
  {
    hide Strtod, DigitsEnd, Atoi;
    if At(s, p) == DOT {
      f := DigitsEnd(s, p + 1);
      ds := DigitsBetween(s, p + 1, f);
      DigitsThere(s, p + 1);
      StartsOne(s, p);
      StartsJoin(s, p, [s[p]], Digits(ds));
    } else {
      ds, f := [], p;
    }
  }

  lemma NumeralOf(s: Bytes, i: nat) returns (n: Numeral)
    requires i <= |s| && ParseNumber(s, i).Ok?
    ensures LegalNumeral(n) && Starts(s, i, NumeralText(n)) && i + |NumeralText(n)| == ParseNumber(s, i).next
  {
    hide ParseNumber, AfterInteger, AfterFraction, DigitsEnd, FractionText, ExponentText, Starts, Digits, At;
    var negative := At(s, i) == MINUS;
    var a := if negative then i + 1 else i;
    var p, integer := IntegerOf(s, i, a);
    var fraction, f := FractionOf(s, i, p);
    var e := NoExponent;
    NoMore(s, p);
    if fraction != [] || IsExponentMark(At(s, p)) {
      e := ExponentOf(s, i, f);
    }
    n := Numeral(negative, integer, fraction, e);
    StartsJoin(s, p, FractionText(fraction), ExponentText(e));
    StartsJoin(s, a, Digits(integer), FractionText(fraction) + ExponentText(e));
    if negative {
      MinusThere(s, i);
      StartsJoin(s, i, [Code('-')], Digits(integer) + (FractionText(fraction) + ExponentText(e)));
    } else {
      assert NumeralText(n) == Digits(integer) + (FractionText(fraction) + ExponentText(e));
    }
  }

  lemma NoMore(s: Bytes, p: nat)
    requires p <= |s|
    ensures ExponentText(NoExponent) == [] && Starts(s, p, [])
  {
  }

  lemma MinusThere(s: Bytes, i: nat)
    requires i <= |s| && At(s, i) == MINUS
    ensures i < |s| && Starts(s, i, [Code('-')])
  {
  }

  lemma FirstDigit(s: Bytes, a: nat, p: nat)
    requires a < p <= |s| && IsDigit(s[a]) && AllDigits(s[a + 1..p])
    ensures AllDigits(s[a..p])
  {
    assert s[a..p] == [s[a]] + s[a + 1..p];
  }

  lemma IntegerOf(s: Bytes, i: nat, a: nat) returns (p: nat, ds: seq<nat>)
    requires i <= |s| && ParseNumber(s, i).Ok? && a == if At(s, i) == MINUS then i + 1 else i
    ensures a < p <= |s| && AreDigits(ds) && |ds| == p - a && Starts(s, a, Digits(ds)) && (ds[0] == 0 ==> |ds| == 1)
    ensures AfterInteger(s, i, p) == ParseNumber(s, i)
  {
    hide AfterInteger, DigitsEnd;
    if At(s, a) == ZERO {
      p := a + 1;
    } else {
      p := DigitsEnd(s, a + 1);
    }
    FirstDigit(s, a, p);
    ds := DigitsBetween(s, a, p);
  }

  // ---- Values -----------------------------------------------------------------------------------------------------------

  /** A value with its leading blanks, from `i` up to `next`. */
  ghost predicate Holds(s: Bytes, i: nat, next: nat, st: Strategy, bs: seq<Blank>, t: Tree) {
    && LegalBlanks(bs, st, false) && Legal(t, st)
    && Starts(s, i, BlanksText(bs)) && Starts(s, i + |BlanksText(bs)|, TreeText(t))
    && i + |BlanksText(bs)| + |TreeText(t)| == next
  }

  lemma WordOf(s: Bytes, j: nat, text: Bytes, v: Json)
    requires j <= |s| && Expect(s, j, text, v).Ok?
    ensures Starts(s, j, text) && Expect(s, j, text, v).next == j + |text|
  {
  }

  lemma Words()
    ensures TreeText(TrueWord) == TRUE_TEXT && TreeText(FalseWord) == FALSE_TEXT && TreeText(NullWord) == NULL_TEXT
  {
    assert Ascii("true") == TRUE_TEXT && Ascii("false") == FALSE_TEXT && Ascii("null") == NULL_TEXT;
  }

  /** The cases of an accepted value that is no array and no object. */
  lemma ScalarOf(s: Bytes, i: nat, depth: nat, st: Strategy) returns (t: Tree)
    requires i <= |s| && ParseValue(s, i, depth, st).Ok? && NextToken(s, i, st).Ok?
    requires NextToken(s, i, st).value != LBRACE && NextToken(s, i, st).value != LBRACKET
    ensures var j := NextToken(s, i, st).next - 1;
            Legal(t, st) && Starts(s, j, TreeText(t)) && j + |TreeText(t)| == ParseValue(s, i, depth, st).next
  {
    hide NextToken, ParseNumber, ParseString, Expect, Starts, NumeralText, StringTreeText, LegalNumeral, LegalChars;
    Words();
    var ch, j := NextToken(s, i, st).value, NextToken(s, i, st).next;
    if ch == MINUS || IsDigit(ch) {
      var n := NumeralOf(s, j - 1);
      t := NumberTree(n);
    } else if ch == LOWER_T {
      WordOf(s, j - 1, TRUE_TEXT, Bool(true));
      t := TrueWord;
    } else if ch == LOWER_F {
      WordOf(s, j - 1, FALSE_TEXT, Bool(false));
      t := FalseWord;
    } else if ch == LOWER_N {
      WordOf(s, j - 1, NULL_TEXT, Null);
      t := NullWord;
    } else {
      var cs := StringOf(s, j - 1);
      t := StringTree(cs);
    }
  }

  lemma TokenFound(s: Bytes, i: nat, depth: nat, st: Strategy)
    requires i <= |s| && ParseValue(s, i, depth, st).Ok?
    ensures NextToken(s, i, st).Ok?
  {
    hide NextToken, Members, Elements, ParseNumber, ParseString, Expect;
  }

  /** How an accepted array goes on behind its bracket. */
  lemma ArrayCases(s: Bytes, i: nat, depth: nat, st: Strategy)
    requires i <= |s| && ParseValue(s, i, depth, st).Ok? && NextToken(s, i, st).Ok? && NextToken(s, i, st).value == LBRACKET
    ensures var j := NextToken(s, i, st).next;
            && NextToken(s, j, st).Ok?
            && ParseValue(s, i, depth, st) ==
               if NextToken(s, j, st).value == RBRACKET then Ok(Arr([]), NextToken(s, j, st).next)
               else Elements(s, j, depth, st, [])
  {
    hide NextToken, Members, Elements, ParseNumber, ParseString, Expect;
  }

  lemma ObjectCases(s: Bytes, i: nat, depth: nat, st: Strategy)
    requires i <= |s| && ParseValue(s, i, depth, st).Ok? && NextToken(s, i, st).Ok? && NextToken(s, i, st).value == LBRACE
    ensures var j := NextToken(s, i, st).next;
            && NextToken(s, j, st).Ok?
            && ParseValue(s, i, depth, st) ==
               if NextToken(s, j, st).value == RBRACE then Ok(Obj([]), NextToken(s, j, st).next)
               else Members(s, j, depth, st, [])
  {
    hide NextToken, Members, Elements, ParseNumber, ParseString, Expect;
  }

  /** An empty pair of brackets from `j` on. */
  lemma GapOf(s: Bytes, i: nat, st: Strategy) returns (gap: seq<Blank>)
    requires i <= |s| && NextToken(s, i, st).Ok?
    ensures LegalBlanks(gap, st, false) && Starts(s, i, BlanksText(gap) + [NextToken(s, i, st).value])
    ensures i + |BlanksText(gap)| + 1 == NextToken(s, i, st).next
  {
    hide NextToken, LegalBlanks, BlanksText, Starts;
    gap := BlanksBefore(s, i, st);
    StartsOne(s, i + |BlanksText(gap)|);
    StartsJoin(s, i, BlanksText(gap), [NextToken(s, i, st).value]);
  }

  lemma {:induction false} ValueOf(s: Bytes, i: nat, depth: nat, st: Strategy) returns (bs: seq<Blank>, t: Tree)
    requires i <= |s| && ParseValue(s, i, depth, st).Ok?
    ensures Holds(s, i, ParseValue(s, i, depth, st).next, st, bs, t)
    decreases |s| - i, 0
  {
    hide NextToken, ParseValue, Elements, Members, LegalBlanks, BlanksText, TreeText, Legal, ElementsText, EntriesText,
      Starts, LegalElement, LegalEntry;
    TokenFound(s, i, depth, st);
    NoBlanks(st);
    bs := BlanksBefore(s, i, st);
    var ch, j := NextToken(s, i, st).value, NextToken(s, i, st).next;
    StartsOne(s, j - 1);
    if ch == LBRACKET {
      ArrayCases(s, i, depth, st);
      if NextToken(s, j, st).value == RBRACKET {
        var gap := GapOf(s, j, st);
        t := ArrayTree(gap, []);
        StartsJoin(s, j - 1, [LBRACKET], BlanksText(gap) + [RBRACKET]);
      } else {
        var es := ElementsOf(s, j, depth, st, []);
        t := ArrayTree([], es);
        StartsJoin(s, j - 1, [LBRACKET], ElementsText(es));
      }
      ArrayText(t);
      MakeArray(t, st);
    } else if ch == LBRACE {
      ObjectCases(s, i, depth, st);
      if NextToken(s, j, st).value == RBRACE {
        var gap := GapOf(s, j, st);
        t := ObjectTree(gap, []);
        StartsJoin(s, j - 1, [LBRACE], BlanksText(gap) + [RBRACE]);
      } else {
        var es := EntriesOf(s, j, depth, st, []);
        t := ObjectTree([], es);
        StartsJoin(s, j - 1, [LBRACE], EntriesText(es));
      }
      ObjectText(t);
      MakeObject(t, st);
    } else {
      t := ScalarOf(s, i, depth, st);
    }
  }

  lemma MakeArray(t: Tree, st: Strategy)
    requires t.ArrayTree? && LegalBlanks(t.gap, st, false) && forall e :: e in t.elements ==> LegalElement(e, st)
    ensures Legal(t, st)
  {
    hide LegalBlanks, LegalElement;
  }

  lemma MakeObject(t: Tree, st: Strategy)
    requires t.ObjectTree? && LegalBlanks(t.gap, st, false) && forall e :: e in t.entries ==> LegalEntry(e, st)
    ensures Legal(t, st)
  {
    hide LegalBlanks, LegalEntry;
  }

  lemma NoBlanks(st: Strategy)
    ensures LegalBlanks([], st, false) && BlanksText([]) == []
  {
  }

  /** One accepted element and the token behind it. */
  lemma {:induction false} ElementOf(s: Bytes, i: nat, depth: nat, st: Strategy) returns (e: Element)
    requires i <= |s| && ParseValue(s, i, depth, st).Ok? && NextToken(s, ParseValue(s, i, depth, st).next, st).Ok?
    ensures LegalElement(e, st) && Starts(s, i, ElementText(e))
    ensures i + |ElementText(e)| + 1 == NextToken(s, ParseValue(s, i, depth, st).next, st).next
    decreases |s| - i, 1
  {
    hide NextToken, ParseValue, LegalBlanks, BlanksText, TreeText, Legal, Starts;
    var bs, t := ValueOf(s, i, depth, st);
    var n := ParseValue(s, i, depth, st).next;
    var after := BlanksBefore(s, n, st);
    e := Element(bs, t, after);
    StartsJoin(s, n - |TreeText(t)|, TreeText(t), BlanksText(after));
    StartsJoin(s, i, BlanksText(bs), TreeText(t) + BlanksText(after));
  }

  lemma ElementsCases(s: Bytes, i: nat, depth: nat, st: Strategy, acc: seq<Json>)
    requires i <= |s| && Elements(s, i, depth, st, acc).Ok?
    ensures var r := ParseValue(s, i, depth + 1, st);
            && r.Ok? && NextToken(s, r.next, st).Ok?
            && var sep := NextToken(s, r.next, st);
            && (sep.value == RBRACKET || sep.value == COMMA)
            && Elements(s, i, depth, st, acc) ==
               if sep.value == RBRACKET then Ok(Arr(acc + [r.value]), sep.next)
               else Elements(s, sep.next, depth, st, acc + [r.value])
  {
    hide NextToken, ParseValue;
  }

  lemma {:induction false} ElementsOf(s: Bytes, i: nat, depth: nat, st: Strategy, acc: seq<Json>) returns (es: seq<Element>)
    requires i <= |s| && Elements(s, i, depth, st, acc).Ok?
    ensures es != [] && (forall e :: e in es ==> LegalElement(e, st)) && Starts(s, i, ElementsText(es))
    ensures i + |ElementsText(es)| == Elements(s, i, depth, st, acc).next
    decreases |s| - i, 2
  {
    hide NextToken, ParseValue, Elements, LegalElement, ElementText, Starts;
    ElementsCases(s, i, depth, st, acc);
    var r := ParseValue(s, i, depth + 1, st);
    var sep := NextToken(s, r.next, st);
    var e := ElementOf(s, i, depth + 1, st);
    var k := i + |ElementText(e)|;
    StartsOne(s, k);
    if sep.value == RBRACKET {
      es := [e];
      StartsJoin(s, i, ElementText(e), [RBRACKET]);
    } else {
      var rest := ElementsOf(s, sep.next, depth, st, acc + [r.value]);
      es := [e] + rest;
      assert es[1..] == rest;
      StartsJoin(s, k, [COMMA], ElementsText(rest));
      StartsJoin(s, i, ElementText(e), [COMMA] + ElementsText(rest));
    }
  }

  lemma MembersCases(s: Bytes, i: nat, depth: nat, st: Strategy, acc: seq<Member>)
    requires i <= |s| && Members(s, i, depth, st, acc).Ok?
    ensures NextToken(s, i, st).Ok? && NextToken(s, i, st).value == QUOTE
    ensures var key := ParseString(s, NextToken(s, i, st).next);
            && key.Ok? && NextToken(s, key.next, st).Ok? && NextToken(s, key.next, st).value == COLON
            && var r := ParseValue(s, NextToken(s, key.next, st).next, depth + 1, st);
            && r.Ok? && NextToken(s, r.next, st).Ok?
            && var sep := NextToken(s, r.next, st);
            && (sep.value == RBRACE || sep.value == COMMA)
            && Members(s, i, depth, st, acc) ==
               if sep.value == RBRACE then Ok(Obj(Insert(acc, key.value, r.value)), sep.next)
               else Members(s, sep.next, depth, st, Insert(acc, key.value, r.value))
  {
    hide NextToken, ParseValue, ParseString, Insert;
  }

  /** One accepted entry and the token behind it. */
  lemma {:induction false} EntryOf(s: Bytes, i: nat, depth: nat, st: Strategy, acc: seq<Member>)
    returns (e: Entry, acc': seq<Member>)
    requires i <= |s| && Members(s, i, depth, st, acc).Ok?
    ensures LegalEntry(e, st) && Starts(s, i, EntryText(e)) && i + |EntryText(e)| < |s|
    ensures s[i + |EntryText(e)|] == RBRACE || s[i + |EntryText(e)|] == COMMA
    ensures if s[i + |EntryText(e)|] == RBRACE then Members(s, i, depth, st, acc).next == i + |EntryText(e)| + 1
            else Members(s, i, depth, st, acc) == Members(s, i + |EntryText(e)| + 1, depth, st, acc')
    decreases |s| - i, 2
  {
    hide NextToken, ParseValue, ParseString, Members, Insert, LegalBlanks, BlanksText, LegalChars, StringTreeText,
      LegalElement, ElementText, EntryText, Starts;
    MembersCases(s, i, depth, st, acc);
    var before := BlanksBefore(s, i, st);
    var j := NextToken(s, i, st).next;
    var key := StringOf(s, j - 1);
    var p := ParseString(s, j).next;
    var middle := BlanksBefore(s, p, st);
    var q := NextToken(s, p, st).next;
    var element := ElementOf(s, q, depth + 1, st);
    e := Entry(before, key, middle, element);
    acc' := Insert(acc, ParseString(s, j).value, ParseValue(s, q, depth + 1, st).value);
    EntryJoin(e, s, i);
  }

  lemma EntryJoin(e: Entry, s: Bytes, i: nat)
    requires Starts(s, i, BlanksText(e.before)) && Starts(s, i + |BlanksText(e.before)|, StringTreeText(e.key))
    requires var p := i + |BlanksText(e.before)| + |StringTreeText(e.key)|;
             var c := p + |BlanksText(e.middle)|;
             Starts(s, p, BlanksText(e.middle)) && c < |s| && s[c] == COLON && Starts(s, c + 1, ElementText(e.element))
    ensures Starts(s, i, EntryText(e))
    ensures |EntryText(e)| ==
            |BlanksText(e.before)| + |StringTreeText(e.key)| + |BlanksText(e.middle)| + 1 + |ElementText(e.element)|
  {
    hide BlanksText, StringTreeText, ElementText, Starts;
    var x, k, y, z := BlanksText(e.before), StringTreeText(e.key), BlanksText(e.middle), ElementText(e.element);
    var p := i + |x| + |k|;
    StartsOne(s, p + |y|);
    StartsJoin(s, p + |y|, [COLON], z);
    StartsJoin(s, p, y, [COLON] + z);
    StartsJoin(s, i + |x|, k, y + ([COLON] + z));
    StartsJoin(s, i, x, k + (y + ([COLON] + z)));
  }

  lemma {:induction false} EntriesOf(s: Bytes, i: nat, depth: nat, st: Strategy, acc: seq<Member>) returns (es: seq<Entry>)
    requires i <= |s| && Members(s, i, depth, st, acc).Ok?
    ensures es != [] && (forall e :: e in es ==> LegalEntry(e, st)) && Starts(s, i, EntriesText(es))
    ensures i + |EntriesText(es)| == Members(s, i, depth, st, acc).next
    decreases |s| - i, 3
  {
    hide Members, LegalEntry, EntryText, Starts;
    var e, acc' := EntryOf(s, i, depth, st, acc);
    var k := i + |EntryText(e)|;
    StartsOne(s, k);
    if s[k] == RBRACE {
      es := [e];
      StartsJoin(s, i, EntryText(e), [RBRACE]);
    } else {
      var rest := EntriesOf(s, k + 1, depth, st, acc');
      es := [e] + rest;
      assert es[1..] == rest;
      StartsJoin(s, k, [COMMA], EntriesText(rest));
      StartsJoin(s, i, EntryText(e), [COMMA] + EntriesText(rest));
    }
  }

  // ---- The language --------------------------------------------------------------------------------------------------------

  lemma TextOf(s: Bytes, st: Strategy) returns (e: Element)
    requires ParseText(s, st).Ok?
    ensures LegalText(e, st) && ElementText(e) == s
  {
    hide ParseValue, SkipGarbage, LegalBlanks, BlanksText, Legal, TreeText;
    var bs, t := ValueOf(s, 0, 0, st);
    var n := ParseValue(s, 0, 0, st).next;
    var after := BlanksOf(s, n, st);
    e := Element(bs, t, after);
    StartsJoin(s, n - |TreeText(t)|, TreeText(t), BlanksText(after));
    StartsJoin(s, 0, BlanksText(bs), TreeText(t) + BlanksText(after));
    assert s[0..|s|] == s;
  }

  /** The text `s` is legal JSON, nested at most to level 200, and stands for the value `v`. */
  ghost predicate Denotes(e: Element, s: Bytes, st: Strategy, v: Json) {
    LegalText(e, st) && ElementText(e) == s && Depth(e.tree) <= 200 && Value(e.tree) == v
  }

  /**
   * For every text, in both strategies: the parser accepts exactly the legal JSON texts whose nesting
   * is at most 200, and returns the value they stand for; a legal text nested deeper fails for its
   * depth.
   */
  lemma Language(s: Bytes, st: Strategy, v: Json)
    ensures ParseText(s, st) == Ok(v, |s|) <==> exists e :: Denotes(e, s, st, v)
    ensures ParseText(s, st).Ok? ==> ParseText(s, st).next == |s|
    ensures forall e :: LegalText(e, st) && ElementText(e) == s && Depth(e.tree) > 200 ==> ParseText(s, st) == Fail(TooDeep)
  {
    hide ParseText, ElementText, LegalText, Value, Depth;
    if ParseText(s, st).Ok? {
      var e := TextOf(s, st);
      TextRead(e, st);
      assert ParseText(s, st).value == v ==> Denotes(e, s, st, v);
    }
    forall e | LegalText(e, st) && ElementText(e) == s ensures ParseText(s, st) == Outcome(e.tree, 0, |s|) {
      TextRead(e, st);
    }
  }

  // ---- Unicode escapes -----------------------------------------------------------------------------------------------------

  /** The bytes `v` are the UTF-8 form of the one code point `pt`, by an independent decoder. */
  ghost predicate IsPoint(v: Bytes, pt: nat) {
    v != [] && Utf8First(v) == (pt, |v|)
  }

  /**
   * A literal of one escape, its digits in either case: every unit, a lone surrogate included, is read
   * as the code point of its value.
   */
  lemma OneEscape(hs: seq<Hex>, s: Bytes, i: nat)
    requires LegalChar(Unicode(hs)) && Starts(s, i, StringTreeText([Unicode(hs)]))
    ensures i < |s| && ParseString(s, i + 1).Ok? && IsPoint(ParseString(s, i + 1).value, UnitOf(hs))
  {
    hide ParseString, Starts, StringTreeText, UnitOf, Render;
    var cs := [Unicode(hs)];
    StringRead(cs, s, i);
    assert Tokens(cs) == [Unit(UnitOf(hs))] + [] by {
      assert cs[1..] == [];
    }
    RenderUnit(UnitOf(hs), []);
    NoPieces();
    PointBytes(UnitOf(hs));
  }

  /** A literal of two escapes that are the UTF-16 units of a code point is read as that code point. */
  lemma TwoEscapes(pt: nat, high: seq<Hex>, low: seq<Hex>, s: Bytes, i: nat)
    requires 0x1_0000 <= pt < 0x11_0000 && LegalChar(Unicode(high)) && LegalChar(Unicode(low))
    requires UnitOf(high) == HighUnit(pt) && UnitOf(low) == LowUnit(pt)
    requires Starts(s, i, StringTreeText([Unicode(high), Unicode(low)]))
    ensures i < |s| && ParseString(s, i + 1).Ok? && IsPoint(ParseString(s, i + 1).value, pt)
  {
    hide ParseString, Starts, StringTreeText, UnitOf, Render, Combine, HighUnit, LowUnit, Utf8;
    var cs := [Unicode(high), Unicode(low)];
    StringRead(cs, s, i);
    assert Tokens(cs) == [Unit(UnitOf(high)), Unit(UnitOf(low))] + [] by {
      assert cs[1..] == [Unicode(low)] && [Unicode(low)][1..] == [];
      assert Tokens([Unicode(low)]) == [Unit(UnitOf(low))];
    }
    CombineUnits(pt);
    RenderPair(UnitOf(high), UnitOf(low), []);
    NoPieces();
    PointBytes(pt);
  }

  lemma NoPieces()
    ensures Render([]) == []
  {
  }

  lemma PointBytes(pt: nat)
    requires pt < 0x11_0000
    ensures IsPoint(Utf8(pt), pt) && IsPoint(Utf8(pt) + [], pt)
  {
    hide Utf8, Utf8First;
    Utf8RoundTrip(pt, []);
    assert Utf8(pt) + [] == Utf8(pt);
  }
}
