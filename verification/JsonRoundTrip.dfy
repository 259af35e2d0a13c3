/** What is printed is legal JSON for the value printed, so parsing gives the value back. */
module JsonRoundTrip {
  import opened Decimal
  import opened Characters
  import opened JsonValue
  import opened JsonOrder
  import opened JsonString
  import opened JsonGrammar
  import opened JsonDump
  import opened JsonSyntax
  import opened JsonAccepted

  // ---- Strings -------------------------------------------------------------------------------

  /** What reading `v`'s escaped text must give. */
  ghost predicate ReadsAs(r: Parsed<seq<Token>>, v: Bytes, next: nat) {
    r.Ok? && r.next == next && Render(r.value) == v
  }

  /** The character `c` is the first escape of `v` and stands for the bytes it replaces. */
  ghost predicate Spells(c: Char, v: Bytes)
    requires v != []
  {
    && LegalChar(c) && CharText(c) == EscapeFirst(v).0
    && match TokenOf(c)
       case Lit(b) => v[..EscapeFirst(v).1] == [b]
       case Unit(u) => !IsHigh(u) && Utf8(u) == v[..EscapeFirst(v).1]
  }

  lemma ShortEscape(v: Bytes) returns (c: Char)
    requires v != [] && |EscapeFirst(v).0| <= 2
    ensures Spells(c, v)
  {
    var b := v[0];
    assert v[..1] == [b];
    if |EscapeFirst(v).0| == 1 {
      c := Plain(b);
    } else {
      c := Escape(if b == BACKSLASH then '\\' else if b == QUOTE then '"' else if b == 8 then 'b' else if b == 12 then 'f'
                  else if b == 10 then 'n' else if b == 13 then 'r' else 't');
    }
  }

  /** Four digits, the first two of them given. */
  function Spelled(a: nat, b: nat, c: nat, d: nat): Char {
    Unicode([Hex(a, false), Hex(b, false), Hex(c, false), Hex(d, false)])
  }

  lemma SpelledText(a: nat, b: nat, c: nat, d: nat)
    requires a < 16 && b < 16 && c < 16 && d < 16
    ensures LegalChar(Spelled(a, b, c, d)) && TokenOf(Spelled(a, b, c, d)) == Unit(a * 4096 + b * 256 + c * 16 + d)
    ensures CharText(Spelled(a, b, c, d)) ==
            [BACKSLASH, LOWER_U, HexText(Hex(a, false)), HexText(Hex(b, false)), HexText(Hex(c, false)), HexText(Hex(d, false))]
  {
    hide HexText;
  }

  lemma LongEscape(v: Bytes) returns (c: Char)
    requires v != [] && |EscapeFirst(v).0| > 2
    ensures Spells(c, v)
  {
    hide TokenOf, LegalChar, CharText, Spelled;
    var b := v[0];
    if b <= 0x1f {
      SpelledText(0, 0, b / 16, b % 16);
      c := Spelled(0, 0, b / 16, b % 16);
      assert v[..1] == Utf8(b);
    } else {
      var d := if At(v, 2) == 0xa8 then 8 else 9;
      SpelledText(2, 0, 2, d);
      c := Spelled(2, 0, 2, d);
      assert v[..3] == [0xe2, 0x80, 0xa0 + d] == Utf8(0x2020 + d);
    }
  }

  /** The escaped text of any bytes is a legal string body that stands for them. */
  lemma {:induction false} EscapedChars(v: Bytes) returns (cs: seq<Char>)
    ensures LegalChars(cs) && CharsText(cs) == Escaped(v) && Render(Tokens(cs)) == v
    decreases |v|
  {
    hide LegalChar, CharText, TokenOf, Render, EscapeFirst, Utf8;
    EscapedNothing();
    RenderNothing();
    if v == [] {
      cs := [];
    } else {
      var w := EscapeFirst(v).1;
      var c;
      if |EscapeFirst(v).0| <= 2 {
        c := ShortEscape(v);
      } else {
        c := LongEscape(v);
      }
      var rest := EscapedChars(v[w..]);
      cs := [c] + rest;
      assert cs[1..] == rest && v == v[..w] + v[w..];
      match TokenOf(c)
      case Lit(b) => RenderLit(b, Tokens(rest));
      case Unit(u) => RenderUnit(u, Tokens(rest));
    }
  }

  lemma RenderNothing()
    ensures Render([]) == []
  {
  }

  lemma EscapedReadsBack(s: Bytes, i: nat, v: Bytes)
    requires Starts(s, i, Escaped(v) + [QUOTE])
    ensures ReadsAs(Lex(s, i), v, i + |Escaped(v)| + 1)
  {
    hide Lex, LegalChars, CharsText, Escaped, Starts, Render;
    var cs := EscapedChars(v);
    CharsRead(cs, s, i);
  }

  // ---- Numbers -------------------------------------------------------------------------------

  /** What may follow a printed number without being read as part of it. */
  predicate Stops(c: byte) {
    !IsDigit(c) && c != DOT && !IsExponentMark(c)
  }

  function Magnitude(n: int): nat {
    if n < 0 then -n else n
  }

  function ReadInt(n: int32): Json {
    if |IntText(n)| <= INT_DIGITS10 then Int(n) else Double(n as real)
  }

  /** The text of an integer is a legal numeral that stands for it. */
  lemma IntNumeral(n: int32) returns (m: Numeral)
    ensures LegalNumeral(m) && m.fraction == [] && m.exponent == NoExponent
    ensures NumeralText(m) == IntText(n) && NumeralValue(m) == ReadInt(n)
  {
    hide ToDec, Number, Digits;
    var ds := DecimalText(Magnitude(n));
    m := Numeral(n < 0, ds, [], NoExponent);
    assert NumeralText(m) == IntText(n);
    assert Exact(m) == n as real;
  }

  lemma IntReadsBack(s: Bytes, i: nat, n: int32)
    requires Starts(s, i, IntText(n)) && Stops(At(s, i + |IntText(n)|))
    ensures ParseNumber(s, i) == Ok(ReadInt(n), i + |IntText(n)|)
  {
    hide ParseNumber, LegalNumeral, NumeralText, NumeralValue, Starts, ReadInt;
    var m := IntNumeral(n);
    NumberRead(m, s, i);
  }

  // ---- Values --------------------------------------------------------------------------------

  /** The value that comes back: integers of ten or more characters return as doubles. */
  function Reread(v: Json): Json {
    match v
    case Int(n) => ReadInt(n)
    case Arr(items) => Arr(RereadItems(items))
    case Obj(ms) => Obj(RereadMembers(ms))
    case _ => v
  }

  function RereadItems(items: seq<Json>): seq<Json> {
    if items == [] then [] else [Reread(items[0])] + RereadItems(items[1..])
  }

  function RereadMembers(ms: seq<Member>): seq<Member> {
    if ms == [] then [] else [Member(ms[0].key, Reread(ms[0].value))] + RereadMembers(ms[1..])
  }

  /** The value that comes back is `==` to the one printed. */
  lemma {:induction false} RereadEq(v: Json)
    ensures Eq(Reread(v), v)
  {
    match v
    case Arr(items) => RereadItemsEq(items);
    case Obj(ms) => RereadMembersEq(ms);
    case _ =>
  }

  lemma {:induction false} RereadItemsEq(items: seq<Json>)
    ensures ItemsEq(RereadItems(items), items)
  {
    if items != [] {
      RereadEq(items[0]);
      RereadItemsEq(items[1..]);
      assert RereadItems(items)[1..] == RereadItems(items[1..]);
    }
  }

  lemma {:induction false} RereadMembersEq(ms: seq<Member>)
    ensures MembersEq(RereadMembers(ms), ms)
  {
    if ms != [] {
      RereadEq(ms[0].value);
      RereadMembersEq(ms[1..]);
      assert RereadMembers(ms)[1..] == RereadMembers(ms[1..]);
    }
  }

  /** The tree `t` has the text of `v` and stands for it. */
  ghost predicate Prints(t: Tree, v: Json, st: Strategy)
    requires Printable(v)
  {
    && Legal(t, st) && TreeText(t) == Text(v) && Value(t) == Reread(v) && Depth(t) == Height(v)
    && (t.NumberTree? ==> t.numeral.fraction == [] && t.numeral.exponent == NoExponent)
  }

  /** The text of every printable value is legal JSON for that value. */
  lemma {:induction false} PrintedTree(v: Json, st: Strategy) returns (t: Tree)
    requires Printable(v) && WellFormed(v)
    ensures Prints(t, v, st)
    decreases v
  {
    match v
    case Arr(items) => t := ArrayPrinted(items, st);
    case Obj(ms) => t := ObjectPrinted(ms, st);
    case _ => t := ScalarPrinted(v, st);
  }

  lemma ScalarPrinted(v: Json, st: Strategy) returns (t: Tree)
    requires Printable(v) && !v.Arr? && !v.Obj?
    ensures Prints(t, v, st)
  {
    hide LegalNumeral, NumeralText, NumeralValue, LegalChars, CharsText, Escaped, Render, ReadInt, IntText;
    match v
    case Null =>
      t := NullWord;
      assert Ascii("null") == NULL_TEXT;
    case Bool(b) =>
      t := if b then TrueWord else FalseWord;
      assert Ascii("true") == TRUE_TEXT && Ascii("false") == FALSE_TEXT;
    case Int(n) =>
      var m := IntNumeral(n);
      t := NumberTree(m);
    case Str(x) =>
      var cs := EscapedChars(x);
      t := StringTree(cs);
  }

  /** The blanks before an entry: none before the first, a space before the others. */
  function Gap(first: bool): seq<Blank> {
    if first then [] else [Space(' ')]
  }

  lemma GapText(first: bool, st: Strategy)
    ensures LegalBlanks(Gap(first), st, false) && BlanksText(Gap(first)) == if first then [] else [SPACE]
  {
    if !first {
      assert Gap(first)[1..] == [];
    }
  }

  lemma LeadText(first: bool, x: Bytes, y: Bytes)
    ensures Lead(first) + x + y == (if first then [] else [COMMA]) + (BlanksText(Gap(first)) + (x + y))
  {
    hide BlanksText, Gap;
    GapText(first, STANDARD);
  }

  /** What follows the first entry of a list. */
  lemma ItemsTextStep(items: seq<Json>, first: bool)
    requires items != [] && forall x :: x in items ==> Printable(x)
    ensures var rest := items[1..];
            && (forall x :: x in rest ==> Printable(x)) && Printable(items[0])
            && ItemsText(items, first) ==
               (if first then [] else [COMMA]) + (BlanksText(Gap(first)) + (Text(items[0]) + ItemsText(rest, false)))
  {
    hide Text, BlanksText, Gap, Printable, Lead;
    assert items[0] in items;
    LeadText(first, Text(items[0]), ItemsText(items[1..], false));
  }

  lemma {:induction false} ItemsPrinted(items: seq<Json>, first: bool, st: Strategy) returns (es: seq<Element>)
    requires items != [] && forall x :: x in items ==> Printable(x) && WellFormed(x)
    ensures |es| == |items| && (forall e :: e in es ==> LegalElement(e, st))
    ensures ItemsText(items, first) == (if first then [] else [COMMA]) + ElementsText(es)
    ensures Values(es) == RereadItems(items) && ElementsDepth(es) == ItemsHeight(items)
    decreases items, 0
  {
    hide Text, TreeText, Legal, Value, Depth, Height, Reread, BlanksText, LegalBlanks, Gap, ItemsText, Printable, WellFormed;
    var rest := items[1..];
    assert items[0] in items;
    ItemsTextStep(items, first);
    GapText(first, st);
    var t := PrintedTree(items[0], st);
    var e := Element(Gap(first), t, []);
    NoGap(st);
    LastItem();
    var more: seq<Element> := [];
    if rest != [] {
      more := ItemsPrinted(rest, false, st);
    }
    es := [e] + more;
    assert es[1..] == more;
    assert ElementText(e) == BlanksText(Gap(first)) + Text(items[0]);
  }

  lemma NoGap(st: Strategy)
    ensures LegalBlanks([], st, false) && BlanksText([]) == []
  {
  }

  lemma LastItem()
    ensures ItemsText([], false) == [RBRACKET] && MembersText([], false) == [RBRACE]
  {
  }

  lemma {:induction false} ArrayPrinted(items: seq<Json>, st: Strategy) returns (t: Tree)
    requires Printable(Arr(items)) && WellFormed(Arr(items))
    ensures Prints(t, Arr(items), st)
    decreases items, 1
  {
    if items == [] {
      t := ArrayTree([], []);
      EmptyPrinted(st);
    } else {
      var es := ItemsPrinted(items, true, st);
      t := ArrayTree([], es);
      ArrayTreePrints(items, es, st);
    }
  }

  lemma EmptyPrinted(st: Strategy)
    ensures Prints(ArrayTree([], []), Arr([]), st) && Prints(ObjectTree([], []), Obj([]), st)
  {
    NoGap(st);
  }

  lemma ArrayTreePrints(items: seq<Json>, es: seq<Element>, st: Strategy)
    requires Printable(Arr(items)) && es != [] && forall e :: e in es ==> LegalElement(e, st)
    requires ItemsText(items, true) == [] + ElementsText(es)
    requires Values(es) == RereadItems(items) && ElementsDepth(es) == ItemsHeight(items)
    ensures Prints(ArrayTree([], es), Arr(items), st)
  {
    hide ElementsText, ItemsText, LegalElement, Values, RereadItems, ElementsDepth, ItemsHeight, BlanksText, LegalBlanks;
    NoGap(st);
  }

  lemma MembersTextStep(ms: seq<Member>, first: bool)
    requires ms != [] && forall m :: m in ms ==> Printable(m.value)
    ensures var rest := ms[1..];
            && (forall m :: m in rest ==> Printable(m.value)) && Printable(ms[0].value)
            && MembersText(ms, first) ==
               (if first then [] else [COMMA]) + (BlanksText(Gap(first)) + (MemberText(ms[0]) + MembersText(rest, false)))
  {
    hide MemberText, BlanksText, Gap, Printable, Lead;
    assert ms[0] in ms;
    LeadText(first, MemberText(ms[0]), MembersText(ms[1..], false));
  }

  lemma {:induction false} MemberPrinted(m: Member, first: bool, st: Strategy) returns (e: Entry)
    requires Printable(m.value) && WellFormed(m.value)
    ensures LegalEntry(e, st) && EntryText(e) == BlanksText(Gap(first)) + MemberText(m)
    ensures Render(Tokens(e.key)) == m.key && Value(e.element.tree) == Reread(m.value)
    ensures Depth(e.element.tree) == Height(m.value)
    decreases m
  {
    hide Text, TreeText, Legal, Value, Depth, Height, Reread, Render, Tokens, LegalChars, CharsText, Escaped, BlanksText, LegalBlanks, Gap;
    GapText(first, st);
    GapText(false, st);
    NoGap(st);
    var t := PrintedTree(m.value, st);
    var cs := EscapedChars(m.key);
    e := Entry(Gap(first), cs, [], Element(Gap(false), t, []));
    assert EntryText(e) == BlanksText(Gap(first)) + MemberText(m);
  }

  lemma {:induction false} MembersPrinted(ms: seq<Member>, first: bool, acc: seq<Member>, st: Strategy) returns (es: seq<Entry>)
    requires ms != [] && SortedKeys(ms) && forall m :: m in ms ==> Printable(m.value) && WellFormed(m.value)
    requires forall a, m :: a in acc && m in ms ==> BytesLess(a.key, m.key)
    ensures |es| == |ms| && (forall e :: e in es ==> LegalEntry(e, st))
    ensures MembersText(ms, first) == (if first then [] else [COMMA]) + EntriesText(es)
    ensures AddEntries(acc, es) == acc + RereadMembers(ms) && EntriesDepth(es) == MembersHeight(ms)
    decreases ms, 0
  {
    hide MemberText, EntryText, EntriesText, LegalEntry, Value, Depth, Height, Reread, Render, Tokens, BlanksText, Gap,
      MembersText, Printable, WellFormed, Insert, AddEntries, EntriesDepth, RereadMembers, MembersHeight, SortedKeys;
    var m, rest := ms[0], ms[1..];
    assert m in ms;
    MembersTextStep(ms, first);
    LastItem();
    var e := MemberPrinted(m, first, st);
    var entry := Member(m.key, Reread(m.value));
    InsertLast(acc, m.key, Reread(m.value));
    var more: seq<Entry> := [];
    if rest != [] {
      KeysAbove(ms, acc, entry);
      more := MembersPrinted(rest, false, acc + [entry], st);
    }
    es := [e] + more;
    OneMoreEntry(e, more, acc);
    OneMoreMember(ms);
    OneMoreHeight(ms);
    GapInFront(if first then [] else [COMMA], BlanksText(Gap(first)), MemberText(m), MembersText(rest, false));
    assert acc + RereadMembers(ms) == acc + [entry] + RereadMembers(rest);
  }

  /** A list of entries, from its first one on. */
  lemma OneMoreEntry(e: Entry, more: seq<Entry>, acc: seq<Member>)
    ensures var es := [e] + more;
            && EntriesText(es) == EntryText(e) + (if more == [] then [RBRACE] else [COMMA] + EntriesText(more))
            && AddEntries(acc, es) == AddEntries(Insert(acc, Render(Tokens(e.key)), Value(e.element.tree)), more)
            && EntriesDepth(es) == Max(1 + Depth(e.element.tree), EntriesDepth(more))
    ensures EntriesDepth([]) == 0 && forall a :: AddEntries(a, []) == a
  {
    hide EntryText, Insert, Render, Tokens, Value, Depth;
    assert ([e] + more)[1..] == more;
  }

  lemma OneMoreMember(ms: seq<Member>)
    requires ms != []
    ensures RereadMembers(ms) == [Member(ms[0].key, Reread(ms[0].value))] + RereadMembers(ms[1..])
    ensures RereadMembers([]) == []
  {
    hide Reread;
  }

  lemma OneMoreHeight(ms: seq<Member>)
    requires ms != []
    ensures MembersHeight(ms) == Max(1 + Height(ms[0].value), MembersHeight(ms[1..]))
    ensures MembersHeight([]) == 0
  {
    hide Height;
  }

  lemma GapInFront(lead: Bytes, gap: Bytes, m: Bytes, u: Bytes)
    ensures lead + (gap + (m + u)) == lead + (gap + m + u)
  {
  }

  lemma KeysAbove(ms: seq<Member>, acc: seq<Member>, entry: Member)
    requires ms != [] && SortedKeys(ms) && entry.key == ms[0].key
    requires forall a, m :: a in acc && m in ms ==> BytesLess(a.key, m.key)
    ensures SortedKeys(ms[1..])
    ensures forall a, m :: a in acc + [entry] && m in ms[1..] ==> BytesLess(a.key, m.key)
  {
    forall a, m | a in acc + [entry] && m in ms[1..] ensures BytesLess(a.key, m.key) {
      var k :| 0 <= k < |ms[1..]| && ms[1..][k] == m;
      assert m == ms[k + 1];
    }
  }

  lemma {:induction false} ObjectPrinted(ms: seq<Member>, st: Strategy) returns (t: Tree)
    requires Printable(Obj(ms)) && WellFormed(Obj(ms))
    ensures Prints(t, Obj(ms), st)
    decreases ms, 1
  {
    if ms == [] {
      t := ObjectTree([], []);
      EmptyPrinted(st);
    } else {
      var es := MembersPrinted(ms, true, [], st);
      t := ObjectTree([], es);
      ObjectTreePrints(ms, es, st);
    }
  }

  lemma ObjectTreePrints(ms: seq<Member>, es: seq<Entry>, st: Strategy)
    requires Printable(Obj(ms)) && es != [] && forall e :: e in es ==> LegalEntry(e, st)
    requires MembersText(ms, true) == [] + EntriesText(es)
    requires AddEntries([], es) == [] + RereadMembers(ms) && EntriesDepth(es) == MembersHeight(ms)
    ensures Prints(ObjectTree([], es), Obj(ms), st)
  {
    hide EntriesText, MembersText, LegalEntry, AddEntries, RereadMembers, EntriesDepth, MembersHeight, BlanksText, LegalBlanks;
    NoGap(st);
    assert [] + RereadMembers(ms) == RereadMembers(ms);
  }

  lemma TextHead(v: Json)
    requires Printable(v)
    ensures Text(v) != [] && IsValueHead(Text(v)[0])
  {
  }

  // ---- Reading back -----------------------------------------------------------------------------

  ghost function PrintedOutcome(v: Json, depth: nat, next: nat): Parsed<Json> {
    if depth + Height(v) <= 200 then Ok(Reread(v), next) else Fail(TooDeep)
  }

  lemma ValueReadsBack(v: Json, s: Bytes, i: nat, depth: nat, st: Strategy)
    requires Printable(v) && WellFormed(v)
    requires Starts(s, i, Text(v)) && Stops(At(s, i + |Text(v)|))
    ensures ParseValue(s, i, depth, st) == PrintedOutcome(v, depth, i + |Text(v)|)
  {
    hide ParseValue, Legal, TreeText, Value, Depth, Text, Reread, Height, Starts, Printable, WellFormed;
    var t := PrintedTree(v, st);
    TreeRead(t, s, i, depth, st);
  }

  /** The printed text as a whole document. */
  lemma DocumentReadsBack(v: Json, st: Strategy)
    requires Printable(v) && WellFormed(v)
    ensures ParseText(Text(v), st) == PrintedOutcome(v, 0, |Text(v)|)
  {
    hide ParseText, Legal, TreeText, Value, Depth, Text, Reread, Height, Printable, WellFormed, BlanksText, LegalBlanks;
    var t := PrintedTree(v, st);
    NoGap(st);
    NoFinalGap(st);
    var e := Element([], t, []);
    assert ElementText(e) == Text(v);
    TextRead(e, st);
  }

  lemma NoFinalGap(st: Strategy)
    ensures LegalBlanks([], st, true)
  {
  }

  /**
   * For every value without non-integral numbers, in both strategies: the printed text parses
   * exactly when the deepest node is at level 200 or less, and then to a value `==` to it.
   */
  lemma RoundTrip(v: Json, st: Strategy)
    requires Printable(v) && WellFormed(v)
    ensures ParseText(Text(v), st).Ok? <==> Height(v) <= 200
    ensures ParseText(Text(v), st).Ok? ==> Eq(ParseText(Text(v), st).value, v)
    ensures ParseText(Text(v), st).Fail? ==> ParseText(Text(v), st).error == TooDeep
  {
    hide ParseText, Text, Reread, Height, Eq, Printable, WellFormed;
    DocumentReadsBack(v, st);
    RereadEq(v);
  }
}
