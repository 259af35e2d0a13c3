/** json11's printer: the text of a value as a function, and the appending methods of the source. */
module JsonDump {
  import opened Decimal
  import opened JsonValue
  import opened JsonGrammar

  /** Printing a non-integral number is `snprintf`'s business; everything else is modelled. */
  ghost predicate Printable(v: Json) {
    match v
    case Double(_) => false
    case Arr(items) => forall x :: x in items ==> Printable(x)
    case Obj(ms) => forall m :: m in ms ==> Printable(m.value)
    case _ => true
  }

  /** `%d`. */
  function IntText(n: int): Bytes {
    if n < 0 then [MINUS] + ToDec(-n) else ToDec(n)
  }

  /** A lower-case hex digit, as `%04x` prints it. */
  function HexChar(d: nat): byte
    requires d < 16
  {
    if d < 10 then 48 + d else 87 + d
  }

  /** The first character of a non-empty string as it is escaped, and how many bytes it stands for. */
  function EscapeFirst(v: Bytes): (r: (Bytes, nat))
    requires v != []
    ensures 0 < r.1 <= |v| && r.0 != []
  {
    var c := v[0];
    if c == BACKSLASH then ([BACKSLASH, BACKSLASH], 1)
    else if c == QUOTE then ([BACKSLASH, QUOTE], 1)
    else if c == 8 then ([BACKSLASH, 98], 1)
    else if c == 12 then ([BACKSLASH, 102], 1)
    else if c == 10 then ([BACKSLASH, 110], 1)
    else if c == 13 then ([BACKSLASH, 114], 1)
    else if c == 9 then ([BACKSLASH, 116], 1)
    else if c <= 0x1f then ([BACKSLASH, LOWER_U, 48, 48, HexChar(c / 16), HexChar(c % 16)], 1)
    else if c == 0xe2 && At(v, 1) == 0x80 && At(v, 2) == 0xa8 then ([BACKSLASH, LOWER_U, 50, 48, 50, 56], 3)
    else if c == 0xe2 && At(v, 1) == 0x80 && At(v, 2) == 0xa9 then ([BACKSLASH, LOWER_U, 50, 48, 50, 57], 3)
    else ([c], 1)
  }

  function Escaped(v: Bytes): Bytes {
    if v == [] then [] else EscapeFirst(v).0 + Escaped(v[EscapeFirst(v).1..])
  }

  function StringText(v: Bytes): Bytes {
    [QUOTE] + Escaped(v) + [QUOTE]
  }

  function Text(v: Json): Bytes
    requires Printable(v)
  {
    match v
    case Null => NULL_TEXT
    case Int(n) => IntText(n)
    case Bool(b) => if b then TRUE_TEXT else FALSE_TEXT
    case Str(s) => StringText(s)
    case Arr(items) => [LBRACKET] + ItemsText(items, true)
    case Obj(ms) => [LBRACE] + MembersText(ms, true)
  }

  /** The separator before an entry. */
  function Lead(first: bool): Bytes {
    if first then [] else [COMMA, SPACE]
  }

  /** The rest of an array's text; `first` says that no element has been printed yet. */
  function ItemsText(items: seq<Json>, first: bool): Bytes
    requires forall x :: x in items ==> Printable(x)
  {
    if items == [] then [RBRACKET]
    else Lead(first) + Text(items[0]) + ItemsText(items[1..], false)
  }

  function MemberText(m: Member): Bytes
    requires Printable(m.value)
  {
    StringText(m.key) + [COLON, SPACE] + Text(m.value)
  }

  function MembersText(ms: seq<Member>, first: bool): Bytes
    requires forall m :: m in ms ==> Printable(m.value)
  {
    if ms == [] then [RBRACE]
    else Lead(first) + MemberText(ms[0]) + MembersText(ms[1..], false)
  }

  lemma EscapeStep(value: Bytes, i: nat, before: Bytes, target: Bytes)
    requires i < |value| && before + Escaped(value[i..]) == target
    ensures i + EscapeFirst(value[i..]).1 <= |value|
    ensures before + EscapeFirst(value[i..]).0 + Escaped(value[i + EscapeFirst(value[i..]).1..]) == target
  {
    var rest := value[i..];
    assert rest[EscapeFirst(rest).1..] == value[i + EscapeFirst(rest).1..];
  }

  /** The character tests of the loop, which look at `value[i]` and up to two bytes beyond. */
  method EscapeOne(value: Bytes, i: nat, out: Bytes) returns (r: Bytes, j: nat)
    requires i < |value|
    ensures r == out + EscapeFirst(value[i..]).0
    ensures j == i + EscapeFirst(value[i..]).1
  {
    ghost var rest := value[i..];
    assert rest[0] == value[i] && At(rest, 1) == At(value, i + 1);
    assert |rest| >= 2 ==> At(rest, 2) == At(value, i + 2);
    var ch := value[i];
    j := i + 1;
    if ch == BACKSLASH {
      r := out + [BACKSLASH, BACKSLASH];
    } else if ch == QUOTE {
      r := out + [BACKSLASH, QUOTE];
    } else if ch == 8 {
      r := out + [BACKSLASH, 98];
    } else if ch == 12 {
      r := out + [BACKSLASH, 102];
    } else if ch == 10 {
      r := out + [BACKSLASH, 110];
    } else if ch == 13 {
      r := out + [BACKSLASH, 114];
    } else if ch == 9 {
      r := out + [BACKSLASH, 116];
    } else if ch <= 0x1f {
      r := out + [BACKSLASH, LOWER_U, 48, 48, HexChar(ch / 16), HexChar(ch % 16)];
    } else if ch == 0xe2 && At(value, i + 1) == 0x80 && At(value, i + 2) == 0xa8 {
      r := out + [BACKSLASH, LOWER_U, 50, 48, 50, 56];
      j := i + 3;
    } else if ch == 0xe2 && At(value, i + 1) == 0x80 && At(value, i + 2) == 0xa9 {
      r := out + [BACKSLASH, LOWER_U, 50, 48, 50, 57];
      j := i + 3;
    } else {
      r := out + [ch];
    }
  }

  lemma EscapedNothing()
    ensures Escaped([]) == []
  {
  }

  lemma RegroupQuoted(out: Bytes, text: Bytes)
    ensures out + [QUOTE] + text + [QUOTE] == out + ([QUOTE] + text + [QUOTE])
  {
  }

  method DumpString(value: Bytes, out: Bytes) returns (r: Bytes)
    ensures r == out + StringText(value)
  {
    hide Escaped, EscapeFirst;
    r := out + [QUOTE];
    var i := 0;
    ghost var target := r + Escaped(value);
    assert value[0..] == value;
    while i < |value|
      invariant 0 <= i <= |value|
      invariant r + Escaped(value[i..]) == target
    {
      EscapeStep(value, i, r, target);
      r, i := EscapeOne(value, i, r);
    }
    assert value[i..] == [];
    EscapedNothing();
    assert r == target;
    r := r + [QUOTE];
    RegroupQuoted(out, Escaped(value));
  }

  method Dump(v: Json, out: Bytes) returns (r: Bytes)
    requires Printable(v)
    ensures r == out + Text(v)
    decreases v
  {
    match v
    case Null => r := out + NULL_TEXT;
    case Int(n) => r := out + IntText(n);
    case Bool(b) => r := out + (if b then TRUE_TEXT else FALSE_TEXT);
    case Str(s) => r := DumpString(s, out);
    case Arr(items) =>
      r := DumpItems(items, out + [LBRACKET]);
      assert out + [LBRACKET] + ItemsText(items, true) == out + ([LBRACKET] + ItemsText(items, true));
    case Obj(ms) =>
      r := DumpMembers(ms, out + [LBRACE]);
      assert out + [LBRACE] + MembersText(ms, true) == out + ([LBRACE] + MembersText(ms, true));
  }

  lemma ItemsStep(items: seq<Json>, k: nat, first: bool, before: Bytes, target: Bytes)
    requires k < |items| && forall x :: x in items ==> Printable(x)
    requires before + ItemsText(items[k..], first) == target
    ensures before + Lead(first) + Text(items[k]) + ItemsText(items[k + 1..], false) == target
  {
    hide Text, Lead;
    assert items[k..][1..] == items[k + 1..];
    var a, b, c := Lead(first), Text(items[k]), ItemsText(items[k + 1..], false);
    assert before + (a + b + c) == before + a + b + c;
  }

  method DumpItems(items: seq<Json>, out: Bytes) returns (r: Bytes)
    requires forall x :: x in items ==> Printable(x)
    ensures r == out + ItemsText(items, true)
    decreases items
  {
    var first := true;
    r := out;
    ghost var target := out + ItemsText(items, true);
    assert items[0..] == items;
    for k := 0 to |items|
      invariant forall x :: x in items[k..] ==> x in items
      invariant r + ItemsText(items[k..], first) == target
    {
      ItemsStep(items, k, first, r, target);
      if !first {
        r := r + [COMMA, SPACE];
      } else {
        assert r + [] == r;
      }
      r := Dump(items[k], r);
      first := false;
    }
    assert items[|items|..] == [];
    r := r + [RBRACKET];
  }

  lemma Regroup(x: Bytes, a: Bytes, b: Bytes, m: Bytes, c: Bytes, d: Bytes)
    ensures x + (a + (b + m + c) + d) == x + a + b + m + c + d
  {
    assert a + (b + m + c) == a + b + m + c;
  }

  lemma MembersStep(ms: seq<Member>, k: nat, first: bool, before: Bytes, target: Bytes)
    requires k < |ms| && forall m :: m in ms ==> Printable(m.value)
    requires before + MembersText(ms[k..], first) == target
    ensures before + Lead(first) + StringText(ms[k].key) + [COLON, SPACE] + Text(ms[k].value)
            + MembersText(ms[k + 1..], false) == target
  {
    assert ms[k..][1..] == ms[k + 1..] && ms[k..][0] == ms[k];
    var d := MembersText(ms[k + 1..], false);
    assert MembersText(ms[k..], first) == Lead(first) + MemberText(ms[k]) + d;
    Regroup(before, Lead(first), StringText(ms[k].key), [COLON, SPACE], Text(ms[k].value), d);
  }

  method DumpMembers(ms: seq<Member>, out: Bytes) returns (r: Bytes)
    requires forall m :: m in ms ==> Printable(m.value)
    ensures r == out + MembersText(ms, true)
    decreases ms
  {
    var first := true;
    r := out;
    ghost var target := out + MembersText(ms, true);
    assert ms[0..] == ms;
    for k := 0 to |ms|
      invariant forall m :: m in ms[k..] ==> m in ms
      invariant r + MembersText(ms[k..], first) == target
    {
      MembersStep(ms, k, first, r, target);
      if !first {
        r := r + [COMMA, SPACE];
      } else {
        assert r + [] == r;
      }
      r := DumpString(ms[k].key, r);
      r := r + [COLON, SPACE];
      r := Dump(ms[k].value, r);
      first := false;
    }
    assert ms[|ms|..] == [];
    r := r + [RBRACE];
  }
}
