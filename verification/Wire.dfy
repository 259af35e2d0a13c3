/** The byte layout of packet items and of the S1AP header, little endian as in the packet buffer. */
module Wire {
  import opened Decimal

  // ---- Little-endian numbers ---------------------------------------------------------------------------

  function Pow256(w: nat): (r: nat)
    ensures r > 0
  {
    if w == 0 then 1 else 256 * Pow256(w - 1)
  }

  /** The low `w` bytes of `x`. */
  function Le(x: nat, w: nat): (s: Bytes)
    ensures |s| == w
  {
    if w == 0 then [] else [x % 256] + Le(x / 256, w - 1)
  }

  function OfLe(s: Bytes): nat {
    if s == [] then 0 else s[0] + 256 * OfLe(s[1..])
  }

  /** A number comes back from `w` bytes exactly when it fits them. */
  lemma {:induction false} LeReadsBack(x: nat, w: nat)
    ensures OfLe(Le(x, w)) == x <==> x < Pow256(w)
    ensures OfLe(Le(x, w)) < Pow256(w)
  {
    if w > 0 {
      LeReadsBack(x / 256, w - 1);
      assert Le(x, w)[1..] == Le(x / 256, w - 1);
    }
  }

  lemma Widths()
    ensures Pow256(1) == 0x100 && Pow256(2) == 0x1_0000 && Pow256(4) == 0x1_0000_0000
    ensures Pow256(8) == 0x1_0000_0000_0000_0000
  {
    assert Pow256(0) == 1;
    assert Pow256(3) == 0x100_0000;
    assert Pow256(5) == 0x100_0000_0000;
    assert Pow256(6) == 0x1_0000_0000_0000;
    assert Pow256(7) == 0x100_0000_0000_0000;
  }

  /** Two's complement of an `int`. */
  function Unsigned(x: int): nat
    requires IsInt(x)
  {
    if x < 0 then x + 0x1_0000_0000 else x
  }

  function Signed(u: nat): int {
    if u < 0x8000_0000 then u else u - 0x1_0000_0000
  }

  predicate IsInt(x: int) {
    -0x8000_0000 <= x < 0x8000_0000
  }

  // ---- Items ---------------------------------------------------------------------------------------------

  datatype Item =
    | Bool(flag: bool)
    | Int(value: int)
    | Unsigned8(n: nat)
    | Unsigned16(n: nat)
    | Unsigned32(n: nat)
    | Unsigned64(n: nat)
    | List(ns: seq<nat>)
    | Raw(bytes: Bytes)
    | Text(bytes: Bytes)

  /** What a reader asks for; lists and raw bytes need their size from outside. */
  datatype Kind = KBool | KInt | K8 | K16 | K32 | K64 | KList(size: nat) | KRaw(size: nat) | KText

  /** The item's C++ type can hold its value. */
  predicate InRange(i: Item) {
    match i
    case Bool(_) => true
    case Int(x) => IsInt(x)
    case Unsigned8(n) => n < Pow256(1)
    case Unsigned16(n) => n < Pow256(2)
    case Unsigned32(n) => n < Pow256(4)
    case Unsigned64(n) => n < Pow256(8)
    case List(ns) => forall k :: 0 <= k < |ns| ==> ns[k] < Pow256(8)
    case Raw(_) => true
    case Text(s) => |s| < 0x8000_0000
  }

  function KindOf(i: Item): Kind {
    match i
    case Bool(_) => KBool
    case Int(_) => KInt
    case Unsigned8(_) => K8
    case Unsigned16(_) => K16
    case Unsigned32(_) => K32
    case Unsigned64(_) => K64
    case List(ns) => KList(|ns|)
    case Raw(s) => KRaw(|s|)
    case Text(_) => KText
  }

  /** The bytes up to the first NUL, as `strlen` and `assign(char*)` see them. */
  function CString(s: Bytes): (r: Bytes)
    ensures r <= s && 0 !in r
    ensures r == s || s[|r|] == 0
  {
    if s == [] || s[0] == 0 then [] else [s[0]] + CString(s[1..])
  }

  function Longs(ns: seq<nat>): (s: Bytes)
    ensures |s| == 8 * |ns|
  {
    if ns == [] then [] else Le(ns[0], 8) + Longs(ns[1..])
  }

  /** The bytes that an item adds to a packet. */
  function Encode(i: Item): Bytes
    requires InRange(i)
  {
    match i
    case Bool(b) => [if b then 1 else 0]
    case Int(x) => Le(Unsigned(x), 4)
    case Unsigned8(n) => Le(n, 1)
    case Unsigned16(n) => Le(n, 2)
    case Unsigned32(n) => Le(n, 4)
    case Unsigned64(n) => Le(n, 8)
    case List(ns) => Longs(ns)
    case Raw(s) => s
    case Text(s) => Le(|CString(s)|, 4) + CString(s)
  }

  /** Reading an item yields it and the bytes after it; a negative text length ends the process. */
  datatype Reading<T> = Got(value: T, rest: Bytes) | BadLength

  /** The length prefix of a text. */
  function TextLength(s: Bytes): int
    requires |s| >= 4
  {
    Signed(OfLe(s[..4]))
  }

  /** The reader stays inside `s`. */
  predicate Within(k: Kind, s: Bytes) {
    match k
    case KBool => 1 <= |s|
    case KInt => 4 <= |s|
    case K8 => 1 <= |s|
    case K16 => 2 <= |s|
    case K32 => 4 <= |s|
    case K64 => 8 <= |s|
    case KList(n) => 8 * n <= |s|
    case KRaw(n) => n <= |s|
    case KText => 4 <= |s| && 4 + TextLength(s) <= |s|
  }

  function OfLongs(s: Bytes, n: nat): (ns: seq<nat>)
    requires 8 * n <= |s|
    ensures |ns| == n
  {
    if n == 0 then [] else [OfLe(s[..8])] + OfLongs(s[8..], n - 1)
  }

  function Decode(k: Kind, s: Bytes): Reading<Item>
    requires Within(k, s)
  {
    match k
    case KBool => Got(Bool(s[0] != 0), s[1..])
    case KInt => Got(Int(Signed(OfLe(s[..4]))), s[4..])
    case K8 => Got(Unsigned8(OfLe(s[..1])), s[1..])
    case K16 => Got(Unsigned16(OfLe(s[..2])), s[2..])
    case K32 => Got(Unsigned32(OfLe(s[..4])), s[4..])
    case K64 => Got(Unsigned64(OfLe(s[..8])), s[8..])
    case KList(n) => Got(List(OfLongs(s, n)), s[8 * n..])
    case KRaw(n) => Got(Raw(s[..n]), s[n..])
    case KText =>
      var n := TextLength(s);
      if n < 0 then BadLength else Got(Text(CString(s[4..4 + n])), s[4 + n..])
  }

  /** What the reader gets for an item: a text stops at its first NUL. */
  function Received(i: Item): Item {
    if i.Text? then Text(CString(i.bytes)) else i
  }

  lemma {:induction false} LongsReadBack(ns: seq<nat>, rest: Bytes)
    requires forall k :: 0 <= k < |ns| ==> ns[k] < Pow256(8)
    ensures OfLongs(Longs(ns) + rest, |ns|) == ns
  {
    hide Pow256, Le, OfLe;
    if ns != [] {
      var s := Longs(ns) + rest;
      assert s[..8] == Le(ns[0], 8);
      assert s[8..] == Longs(ns[1..]) + rest;
      LeReadsBack(ns[0], 8);
      LongsReadBack(ns[1..], rest);
    }
  }

  lemma {:induction false} CStringTwice(s: Bytes)
    ensures CString(CString(s)) == CString(s)
    ensures CString(s) == s <==> 0 !in s
  {
    if s != [] && s[0] != 0 {
      CStringTwice(s[1..]);
      assert s == [s[0]] + s[1..];
      assert CString(s)[1..] == CString(s[1..]);
    }
  }

  lemma TextReadsBack(t: Bytes, rest: Bytes)
    requires |t| < 0x8000_0000
    ensures var s := Encode(Text(t)) + rest;
            Within(KText, s) && Decode(KText, s) == Got(Received(Text(t)), rest)
  {
    var c := CString(t);
    var s := Encode(Text(t)) + rest;
    hide Le, OfLe, Pow256, CString;
    assert s == Le(|c|, 4) + (c + rest);
    assert s[..4] == Le(|c|, 4);
    LeReadsBack(|c|, 4);
    Widths();
    assert s[4..4 + |c|] == c && s[4 + |c|..] == rest;
    CStringTwice(t);
  }

  lemma NumberReadsBack(x: nat, w: nat, rest: Bytes)
    requires x < Pow256(w)
    ensures var s := Le(x, w) + rest; |s| >= w && OfLe(s[..w]) == x && s[w..] == rest
  {
    assert (Le(x, w) + rest)[..w] == Le(x, w);
    LeReadsBack(x, w);
  }

  /** Every item is read back as `Received`, whatever follows it. */
  lemma ItemReadsBack(i: Item, rest: Bytes)
    requires InRange(i)
    ensures var s := Encode(i) + rest;
            Within(KindOf(i), s) && Decode(KindOf(i), s) == Got(Received(i), rest)
  {
    hide Le, OfLe, Pow256, CString;
    Widths();
    match i
    case Bool(b) => assert ([if b then 1 else 0] + rest)[1..] == rest;
    case Int(x) => NumberReadsBack(Unsigned(x), 4, rest);
    case Unsigned8(n) => NumberReadsBack(n, 1, rest);
    case Unsigned16(n) => NumberReadsBack(n, 2, rest);
    case Unsigned32(n) => NumberReadsBack(n, 4, rest);
    case Unsigned64(n) => NumberReadsBack(n, 8, rest);
    case List(ns) =>
      LongsReadBack(ns, rest);
      assert (Longs(ns) + rest)[8 * |ns|..] == rest;
    case Raw(b) => assert (b + rest)[..|b|] == b && (b + rest)[|b|..] == rest;
    case Text(t) => TextReadsBack(t, rest);
  }

  // ---- Lists of items ------------------------------------------------------------------------------------

  predicate AllInRange(items: seq<Item>) {
    forall k :: 0 <= k < |items| ==> InRange(items[k])
  }

  function EncodeAll(items: seq<Item>): Bytes
    requires AllInRange(items)
  {
    if items == [] then [] else Encode(items[0]) + EncodeAll(items[1..])
  }

  function Kinds(items: seq<Item>): (r: seq<Kind>)
    ensures |r| == |items|
  {
    if items == [] then [] else [KindOf(items[0])] + Kinds(items[1..])
  }

  function ReceivedAll(items: seq<Item>): (r: seq<Item>)
    ensures |r| == |items|
  {
    if items == [] then [] else [Received(items[0])] + ReceivedAll(items[1..])
  }

  predicate AllWithin(ks: seq<Kind>, s: Bytes) {
    ks == [] ||
    (Within(ks[0], s) &&
     match Decode(ks[0], s)
     case BadLength => true
     case Got(_, rest) => AllWithin(ks[1..], rest))
  }

  function DecodeAll(ks: seq<Kind>, s: Bytes): Reading<seq<Item>>
    requires AllWithin(ks, s)
  {
    if ks == [] then Got([], s)
    else
      match Decode(ks[0], s)
      case BadLength => BadLength
      case Got(i, rest) =>
        match DecodeAll(ks[1..], rest)
        case BadLength => BadLength
        case Got(more, rest') => Got([i] + more, rest')
  }

  /** Extracting the same types in order gives the items back, and exactly the bytes after them. */
  lemma {:induction false} ItemsReadBack(items: seq<Item>, rest: Bytes)
    requires AllInRange(items)
    ensures var s := EncodeAll(items) + rest;
            AllWithin(Kinds(items), s) && DecodeAll(Kinds(items), s) == Got(ReceivedAll(items), rest)
  {
    hide Encode, Decode, Within, InRange, Received, KindOf;
    if items == [] {
      assert EncodeAll(items) + rest == rest;
    } else {
      var tail := EncodeAll(items[1..]) + rest;
      assert EncodeAll(items) + rest == Encode(items[0]) + tail;
      ItemReadsBack(items[0], tail);
      ItemsReadBack(items[1..], rest);
      assert Kinds(items)[1..] == Kinds(items[1..]);
    }
  }

  lemma {:induction false} ReceivedAt(items: seq<Item>, k: nat)
    requires k < |items|
    ensures ReceivedAll(items)[k] == Received(items[k])
  {
    if k > 0 {
      ReceivedAt(items[1..], k - 1);
    }
  }

  predicate HasNul(i: Item) {
    i.Text? && 0 in i.bytes
  }

  /** The items come back unchanged exactly when no text holds a NUL byte. */
  lemma ReceivedUnchanged(items: seq<Item>)
    ensures ReceivedAll(items) == items <==> forall k :: 0 <= k < |items| ==> !HasNul(items[k])
  {
    hide CString;
    forall k | 0 <= k < |items| ensures ReceivedAll(items)[k] == items[k] <==> !HasNul(items[k]) {
      ReceivedAt(items, k);
      if items[k].Text? {
        CStringTwice(items[k].bytes);
      }
    }
  }

  // ---- The S1AP header ---------------------------------------------------------------------------------------

  const S1AP_HDR_LEN := 12

  /** The members in memory order; `pad` is the byte the compiler leaves before the 32-bit ids. */
  datatype S1ap = S1ap(msgLen: nat, msgType: byte, pad: byte, enbId: nat, mmeId: nat)

  predicate HeaderInRange(h: S1ap) {
    h.msgLen < Pow256(2) && h.enbId < Pow256(4) && h.mmeId < Pow256(4)
  }

  function EncodeS1ap(h: S1ap): (s: Bytes)
    requires HeaderInRange(h)
    ensures |s| == S1AP_HDR_LEN
  {
    Le(h.msgLen, 2) + [h.msgType, h.pad] + Le(h.enbId, 4) + Le(h.mmeId, 4)
  }

  function DecodeS1ap(s: Bytes): (h: S1ap)
    requires |s| == S1AP_HDR_LEN
  {
    S1ap(OfLe(s[..2]), s[2], s[3], OfLe(s[4..8]), OfLe(s[8..12]))
  }

  lemma S1apReadsBack(h: S1ap)
    requires HeaderInRange(h)
    ensures DecodeS1ap(EncodeS1ap(h)) == h
  {
    hide Le, OfLe, Pow256;
    var s := EncodeS1ap(h);
    assert s[..2] == Le(h.msgLen, 2) && s[4..8] == Le(h.enbId, 4) && s[8..12] == Le(h.mmeId, 4);
    LeReadsBack(h.msgLen, 2);
    LeReadsBack(h.enbId, 4);
    LeReadsBack(h.mmeId, 4);
  }

  // ---- The layout in memory --------------------------------------------------------------------------------

  /** The number that two consecutive bytes hold, lowest byte first. */
  function Half(s: Bytes, i: nat): nat
    requires i + 2 <= |s|
  {
    s[i] as int + 0x100 * s[i + 1] as int
  }

  /** The same for four bytes. */
  function Word(s: Bytes, i: nat): nat
    requires i + 4 <= |s|
  {
    Half(s, i) + 0x1_0000 * Half(s, i + 2)
  }

  lemma OfLeTwo(s: Bytes)
    requires |s| == 2
    ensures OfLe(s) == Half(s, 0)
  {
    assert s[1..][1..] == [];
    assert OfLe(s[1..]) == s[1] as int + 256 * OfLe([]);
  }

  lemma OfLeFour(s: Bytes)
    requires |s| == 4
    ensures OfLe(s) == Word(s, 0)
  {
    OfLeTwo(s[2..]);
    assert s[1..][1..] == s[2..];
    assert OfLe(s[1..]) == s[1] as int + 256 * OfLe(s[2..]);
  }

  lemma OfLeEight(s: Bytes)
    requires |s| == 8
    ensures OfLe(s) == Word(s, 0) + 0x1_0000_0000 * Word(s, 4)
  {
    OfLeFour(s[4..]);
    assert s[1..][1..] == s[2..] && s[2..][1..] == s[3..] && s[3..][1..] == s[4..];
    assert OfLe(s[3..]) == s[3] as int + 256 * OfLe(s[4..]);
    assert OfLe(s[2..]) == s[2] as int + 256 * OfLe(s[3..]);
    assert OfLe(s[1..]) == s[1] as int + 256 * OfLe(s[2..]);
  }

  /** Where the members of the header stand: the length at 0, the type at 2, the two ids at 4 and 8. */
  lemma S1apLayout(h: S1ap)
    requires HeaderInRange(h)
    ensures var s := EncodeS1ap(h);
            && Half(s, 0) == h.msgLen && s[2] == h.msgType
            && Word(s, 4) == h.enbId && Word(s, 8) == h.mmeId
  {
    hide Le, OfLe, Pow256;
    var s := EncodeS1ap(h);
    S1apReadsBack(h);
    OfLeTwo(s[..2]);
    OfLeFour(s[4..8]);
    OfLeFour(s[8..12]);
  }

  /** The bytes of the items: numbers lowest byte first, a text behind its length. */
  lemma ItemLayout(i: Item)
    requires InRange(i)
    ensures i.Bool? ==> Encode(i) == [if i.flag then 1 else 0]
    ensures i.Int? ==> |Encode(i)| == 4 && (Word(Encode(i), 0) - i.value) % 0x1_0000_0000 == 0
    ensures i.Unsigned8? ==> Encode(i) == [i.n]
    ensures i.Unsigned16? ==> |Encode(i)| == 2 && Half(Encode(i), 0) == i.n
    ensures i.Unsigned32? ==> |Encode(i)| == 4 && Word(Encode(i), 0) == i.n
    ensures i.Unsigned64? ==> |Encode(i)| == 8 && Word(Encode(i), 0) + 0x1_0000_0000 * Word(Encode(i), 4) == i.n
    ensures i.Text? ==> |Encode(i)| == 4 + |CString(i.bytes)| && Word(Encode(i), 0) == |CString(i.bytes)|
                        && Encode(i)[4..] == CString(i.bytes)
  {
    hide OfLe, Pow256, CString;
    Widths();
    match i
    case Int(x) =>
      LeReadsBack(Unsigned(x), 4);
      OfLeFour(Encode(i));
    case Unsigned8(n) =>
    case Unsigned16(n) =>
      LeReadsBack(n, 2);
      OfLeTwo(Encode(i));
    case Unsigned32(n) =>
      LeReadsBack(n, 4);
      OfLeFour(Encode(i));
    case Unsigned64(n) =>
      LeReadsBack(n, 8);
      OfLeEight(Encode(i));
    case Text(t) =>
      LeReadsBack(|CString(t)|, 4);
      OfLeFour(Le(|CString(t)|, 4));
    case _ =>
  }

  lemma {:induction false} OfLeBound(s: Bytes)
    ensures OfLe(s) < Pow256(|s|)
  {
    if s != [] {
      OfLeBound(s[1..]);
    }
  }
}
