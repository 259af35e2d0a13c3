/**
 * The JSON texts, as RFC 8259 writes them: syntax trees, the text each one yields and the value it
 * stands for. Every character of the grammar is a literal here.
 */
module JsonSyntax {
  import opened Decimal
  import opened Characters
  import opened JsonValue
  import opened JsonString
  import opened JsonGrammar

  // ---- Blanks (section 2, and the comments of the second strategy) -------------------------------------------

  datatype Blank = Space(c: char) | LineComment(text: Bytes) | BlockComment(text: Bytes)

  function BlankText(b: Blank): Bytes {
    match b
    case Space(c) => [Code(c)]
    case LineComment(text) => Ascii("//") + text
    case BlockComment(text) => Ascii("/*") + (text + Ascii("*/"))
  }

  function BlanksText(bs: seq<Blank>): Bytes {
    if bs == [] then [] else BlankText(bs[0]) + BlanksText(bs[1..])
  }

  ghost predicate LegalBlank(b: Blank, st: Strategy) {
    match b
    case Space(c) => c == ' ' || c == '\t' || c == '\n' || c == '\r'
    case LineComment(text) => st.COMMENTS? && Code('\n') !in text
    case BlockComment(text) =>
      st.COMMENTS? && forall k :: 0 <= k < |text| ==> !ClosesAt(text + Ascii("*/"), k)
  }

  /** A block comment would end at position `k` of `s`. */
  ghost predicate ClosesAt(s: Bytes, k: nat) {
    k + 1 < |s| && s[k] == Code('*') && s[k + 1] == Code('/')
  }

  /** A line comment ends at a line break, or at the end of the whole text. */
  ghost predicate LegalBlanks(bs: seq<Blank>, st: Strategy, final: bool) {
    bs == [] ||
    (&& LegalBlank(bs[0], st)
     && (bs[0].LineComment? ==> if |bs| == 1 then final else bs[1] == Space('\n'))
     && LegalBlanks(bs[1..], st, final))
  }

  // ---- Strings (section 7) ---------------------------------------------------------------------------------------

  datatype Hex = Hex(value: nat, upper: bool)

  datatype Char = Plain(b: byte) | Escape(c: char) | Unicode(digits: seq<Hex>)

  function HexText(h: Hex): byte {
    if h.value < 10 then '0' as int + h.value
    else if h.value < 16 then (if h.upper then 'A' as int else 'a' as int) + (h.value - 10)
    else 0
  }

  function HexTexts(hs: seq<Hex>): (r: Bytes)
    ensures |r| == |hs|
  {
    seq(|hs|, k requires 0 <= k < |hs| => HexText(hs[k]))
  }

  function CharText(c: Char): Bytes {
    match c
    case Plain(b) => [b]
    case Escape(e) => [Code('\\'), Code(e)]
    case Unicode(hs) => [Code('\\'), Code('u')] + HexTexts(hs)
  }

  function CharsText(cs: seq<Char>): Bytes {
    if cs == [] then [] else CharText(cs[0]) + CharsText(cs[1..])
  }

  ghost predicate LegalChar(c: Char) {
    match c
    case Plain(b) => b >= 0x20 && b != Code('"') && b != Code('\\')
    case Escape(e) => e in ['"', '\\', '/', 'b', 'f', 'n', 'r', 't']
    case Unicode(hs) => |hs| == 4 && forall k :: 0 <= k < 4 ==> hs[k].value < 16
  }

  ghost predicate LegalChars(cs: seq<Char>) {
    forall k :: 0 <= k < |cs| ==> LegalChar(cs[k])
  }

  function EscapedByte(c: char): byte {
    if c == 'b' then 8
    else if c == 'f' then 12
    else if c == 'n' then Code('\n')
    else if c == 'r' then Code('\r')
    else if c == 't' then Code('\t')
    else Code(c)
  }

  /** The UTF-16 unit of four hexadecimal digits. */
  function UnitOf(hs: seq<Hex>): unit16 {
    if |hs| != 4 then 0
    else (hs[0].value * 4096 + hs[1].value * 256 + hs[2].value * 16 + hs[3].value) % 0x1_0000
  }

  function TokenOf(c: Char): Token {
    match c
    case Plain(b) => Lit(b)
    case Escape(e) => Lit(EscapedByte(e))
    case Unicode(hs) => Unit(UnitOf(hs))
  }

  function Tokens(cs: seq<Char>): seq<Token> {
    if cs == [] then [] else [TokenOf(cs[0])] + Tokens(cs[1..])
  }

  // ---- Numbers (section 6) ----------------------------------------------------------------------------------------

  datatype Sign = NoSign | Plus | Minus

  datatype Exponent = NoExponent | Power(upper: bool, sign: Sign, digits: seq<nat>)

  /** Without a fraction, `fraction` is empty. */
  datatype Numeral = Numeral(negative: bool, integer: seq<nat>, fraction: seq<nat>, exponent: Exponent)

  function SignText(s: Sign): Bytes {
    match s
    case NoSign => []
    case Plus => [Code('+')]
    case Minus => [Code('-')]
  }

  function ExponentText(e: Exponent): Bytes {
    match e
    case NoExponent => []
    case Power(upper, sign, ds) => [if upper then Code('E') else Code('e')] + (SignText(sign) + Digits(ds))
  }

  function FractionText(ds: seq<nat>): Bytes {
    if ds == [] then [] else [Code('.')] + Digits(ds)
  }

  function NumeralText(n: Numeral): Bytes {
    (if n.negative then [Code('-')] else [])
    + (Digits(n.integer) + (FractionText(n.fraction) + ExponentText(n.exponent)))
  }

  ghost predicate LegalNumeral(n: Numeral) {
    && AreDigits(n.integer) && n.integer != [] && (n.integer[0] == 0 ==> |n.integer| == 1)
    && AreDigits(n.fraction)
    && (n.exponent.Power? ==> AreDigits(n.exponent.digits) && n.exponent.digits != [])
  }

  function WithFraction(integer: nat, ds: seq<nat>): real {
    integer as real + if ds == [] then 0.0 else Number(ds) as real / Pow10(|ds|) as real
  }

  function WithExponent(x: real, e: Exponent): real {
    match e
    case NoExponent => x
    case Power(_, sign, ds) =>
      if sign.Minus? then x / Pow10(Number(ds)) as real else x * Pow10(Number(ds)) as real
  }

  /** The number that a numeral stands for, exactly. */
  function Exact(n: Numeral): real {
    var x := WithExponent(WithFraction(Number(n.integer), n.fraction), n.exponent);
    if n.negative then -x else x
  }

  lemma ShortNumber(ds: seq<nat>)
    requires AreDigits(ds) && |ds| <= 9
    ensures Number(ds) < 1_000_000_000
  {
    OfDigits(ds);
    OfDecBound(Digits(ds));
    Pow10Monotone(|ds|, 9);
    assert Pow10(9) == 1_000_000_000;
  }

  /** Integers of at most nine characters are read as ints, everything else as doubles. */
  function NumeralValue(n: Numeral): Json {
    var i: int := if n.negative then 0 - Number(n.integer) else Number(n.integer);
    if n.fraction == [] && n.exponent.NoExponent? && |NumeralText(n)| <= 9 && -0x8000_0000 <= i < 0x8000_0000 then Int(i)
    else Double(Exact(n))
  }

  // ---- Values (sections 3 to 5) --------------------------------------------------------------------------------------

  /** `gap` is what stands between the brackets of an empty array or object. */
  datatype Tree =
    | NullWord
    | TrueWord
    | FalseWord
    | NumberTree(numeral: Numeral)
    | StringTree(chars: seq<Char>)
    | ArrayTree(gap: seq<Blank>, elements: seq<Element>)
    | ObjectTree(gap: seq<Blank>, entries: seq<Entry>)

  datatype Element = Element(before: seq<Blank>, tree: Tree, after: seq<Blank>)

  datatype Entry = Entry(before: seq<Blank>, key: seq<Char>, middle: seq<Blank>, element: Element)

  function StringTreeText(cs: seq<Char>): Bytes {
    [Code('"')] + (CharsText(cs) + [Code('"')])
  }

  function TreeText(t: Tree): Bytes
    decreases t
  {
    match t
    case NullWord => Ascii("null")
    case TrueWord => Ascii("true")
    case FalseWord => Ascii("false")
    case NumberTree(n) => NumeralText(n)
    case StringTree(cs) => StringTreeText(cs)
    case ArrayTree(gap, es) => [Code('[')] + if es == [] then BlanksText(gap) + [Code(']')] else ElementsText(es)
    case ObjectTree(gap, es) => [Code('{')] + if es == [] then BlanksText(gap) + [Code('}')] else EntriesText(es)
  }

  function ElementText(e: Element): Bytes
    decreases e
  {
    BlanksText(e.before) + (TreeText(e.tree) + BlanksText(e.after))
  }

  /** The elements with their commas, and the closing bracket. */
  function ElementsText(es: seq<Element>): Bytes
    requires es != []
    decreases es
  {
    ElementText(es[0]) + if |es| == 1 then [Code(']')] else [Code(',')] + ElementsText(es[1..])
  }

  function EntryText(e: Entry): Bytes
    decreases e
  {
    BlanksText(e.before) + (StringTreeText(e.key) + (BlanksText(e.middle) + ([Code(':')] + ElementText(e.element))))
  }

  /** The entries with their commas, and the closing brace. */
  function EntriesText(es: seq<Entry>): Bytes
    requires es != []
    decreases es
  {
    EntryText(es[0]) + if |es| == 1 then [Code('}')] else [Code(',')] + EntriesText(es[1..])
  }

  ghost predicate Legal(t: Tree, st: Strategy)
    decreases t
  {
    match t
    case NumberTree(n) => LegalNumeral(n)
    case StringTree(cs) => LegalChars(cs)
    case ArrayTree(gap, es) => LegalBlanks(gap, st, false) && forall e :: e in es ==> LegalElement(e, st)
    case ObjectTree(gap, es) => LegalBlanks(gap, st, false) && forall e :: e in es ==> LegalEntry(e, st)
    case _ => true
  }

  ghost predicate LegalElement(e: Element, st: Strategy)
    decreases e
  {
    LegalBlanks(e.before, st, false) && Legal(e.tree, st) && LegalBlanks(e.after, st, false)
  }

  ghost predicate LegalEntry(e: Entry, st: Strategy)
    decreases e
  {
    && LegalBlanks(e.before, st, false) && LegalChars(e.key) && LegalBlanks(e.middle, st, false)
    && LegalElement(e.element, st)
  }

  /** How deep the tree nests; a value that is no array or object has depth 0. */
  ghost function Depth(t: Tree): nat
    decreases t
  {
    match t
    case ArrayTree(_, es) => ElementsDepth(es)
    case ObjectTree(_, es) => EntriesDepth(es)
    case _ => 0
  }

  ghost function ElementsDepth(es: seq<Element>): nat
    decreases es
  {
    if es == [] then 0 else Max(1 + Depth(es[0].tree), ElementsDepth(es[1..]))
  }

  ghost function EntriesDepth(es: seq<Entry>): nat
    decreases es
  {
    if es == [] then 0 else Max(1 + Depth(es[0].element.tree), EntriesDepth(es[1..]))
  }

  /** The value that a tree stands for; of two entries with the same key the later one counts. */
  function Value(t: Tree): Json
    decreases t
  {
    match t
    case NullWord => Null
    case TrueWord => Bool(true)
    case FalseWord => Bool(false)
    case NumberTree(n) => NumeralValue(n)
    case StringTree(cs) => Str(Render(Tokens(cs)))
    case ArrayTree(_, es) => Arr(Values(es))
    case ObjectTree(_, es) => Obj(AddEntries([], es))
  }

  function Values(es: seq<Element>): seq<Json>
    decreases es
  {
    if es == [] then [] else [Value(es[0].tree)] + Values(es[1..])
  }

  function AddEntries(acc: seq<Member>, es: seq<Entry>): seq<Member>
    decreases es
  {
    if es == [] then acc
    else AddEntries(Insert(acc, Render(Tokens(es[0].key)), Value(es[0].element.tree)), es[1..])
  }

  /** A whole text: one value with blanks around it, the last of which may end with the text. */
  ghost predicate LegalText(e: Element, st: Strategy) {
    LegalBlanks(e.before, st, false) && Legal(e.tree, st) && LegalBlanks(e.after, st, true)
  }
}
