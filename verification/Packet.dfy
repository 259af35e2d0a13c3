/** The packet buffer: 1024 bytes, a cursor and a length, changed in place. */
module Packet {
  import opened Decimal
  import opened Wire

  const BUF_SIZE: nat := 1024

  function Zeros(n: nat): Bytes {
    seq(n, _ => 0)
  }

  /** The buffer that holds `s` and zeros behind it, as a fresh allocation does. */
  function Padded(s: Bytes): Bytes
    requires |s| <= BUF_SIZE
  {
    s + Zeros(BUF_SIZE - |s|)
  }

  /** `src` copied over `buf` from position `at`. */
  function Overwritten(buf: Bytes, at: nat, src: Bytes): Bytes
    requires at + |src| <= |buf|
  {
    buf[..at] + src + buf[at + |src|..]
  }

  /** `memmove` into an array. */
  method CopyInto(buf: array<byte>, at: nat, src: Bytes)
    requires at + |src| <= buf.Length
    modifies buf
    ensures buf[..] == Overwritten(old(buf[..]), at, src)
  {
    forall k | 0 <= k < |src| {
      buf[at + k] := src[k];
    }
  }

  method AllocateZeroed(n: nat) returns (buf: array<byte>)
    ensures fresh(buf) && buf[..] == Zeros(n)
  {
    buf := new byte[n](_ => 0);
  }

  class Packet {
    var data: array<byte>
    var dataPtr: nat
    /** Negative only after a failed read. */
    var len: int
    var s1ap: S1ap

    ghost predicate Valid()
      reads this
    {
      data.Length == BUF_SIZE && len <= BUF_SIZE
    }

    /** The cursor is inside the buffer. */
    ghost predicate Readable()
      reads this
    {
      Valid() && dataPtr <= BUF_SIZE
    }

    /** The message: the bytes that would be sent. */
    ghost function Content(): Bytes
      reads this, data
      requires Valid() && len >= 0
    {
      data[..len]
    }

    /** The bytes from the cursor to the end of the buffer. */
    ghost function Ahead(): Bytes
      reads this, data
      requires Readable()
    {
      data[dataPtr..]
    }

    constructor ()
      ensures Valid() && fresh(data) && data[..] == Zeros(BUF_SIZE) && dataPtr == 0 && len == 0
    {
      var buf := AllocateZeroed(BUF_SIZE);
      data, dataPtr, len := buf, 0, 0;
      s1ap := S1ap(0, 0, 0, 0, 0);
    }

    /** There is room for `n` more bytes, at the cursor and in the message. */
    ghost predicate RoomFor(n: nat)
      reads this
    {
      Valid() && len >= 0 && dataPtr + n <= BUF_SIZE && len + n <= BUF_SIZE
    }

    /**
     * `src` has been written at the cursor `at` of a packet with the bytes `before` and length `was`;
     * at the end of the message that extends the message.
     */
    ghost predicate Appended(before: Bytes, at: nat, was: int, src: Bytes)
      reads this, data
    {
      && Valid() && |before| == BUF_SIZE && 0 <= was && at + |src| <= BUF_SIZE
      && dataPtr == at + |src| && len == was + |src|
      && data[..] == Overwritten(before, at, src)
      && (at == was ==> Content() == before[..at] + src)
    }

    /** Raw bytes: every overload of `append_item` ends here. */
    method AppendBytes(src: Bytes)
      requires RoomFor(|src|)
      modifies this`dataPtr, this`len, data
      ensures Appended(old(data[..]), old(dataPtr), old(len), src)
    {
      CopyInto(data, dataPtr, src);
      dataPtr := dataPtr + |src|;
      len := len + |src|;
    }

    /** `append_item` of each type. */
    method AppendItem(item: Item)
      requires InRange(item) && RoomFor(|Encode(item)|)
      modifies this`dataPtr, this`len, data
      ensures Appended(old(data[..]), old(dataPtr), old(len), Encode(item))
    {
      hide Le, CString, Longs, Overwritten, Appended;
      match item
      case Bool(b) => AppendBytes([if b then 1 else 0]);
      case Int(x) => AppendBytes(Le(Unsigned(x), 4));
      case Unsigned8(n) => AppendBytes(Le(n, 1));
      case Unsigned16(n) => AppendBytes(Le(n, 2));
      case Unsigned32(n) => AppendBytes(Le(n, 4));
      case Unsigned64(n) => AppendBytes(Le(n, 8));
      case List(ns) => AppendLongs(ns);
      case Raw(s) => AppendBytes(s);
      case Text(s) => AppendText(s);
    }

    method AppendText(s: Bytes)
      requires RoomFor(4 + |CString(s)|)
      modifies this`dataPtr, this`len, data
      ensures Appended(old(data[..]), old(dataPtr), old(len), Le(|CString(s)|, 4) + CString(s))
    {
      hide Le, CString, Overwritten;
      var c := CString(s);
      AppendBytes(Le(|c|, 4));
      AppendBytes(c);
      OverwrittenOn(old(data[..]), old(dataPtr), Le(|c|, 4), c);
      OverwrittenFront(old(data[..]), old(dataPtr), Le(|c|, 4) + c);
    }

    method AppendLongs(ns: seq<nat>)
      requires RoomFor(8 * |ns|)
      modifies this`dataPtr, this`len, data
      ensures Appended(old(data[..]), old(dataPtr), old(len), Longs(ns))
    {
      hide Le, Overwritten;
      ghost var before, at := data[..], dataPtr;
      assert Longs(ns[..0]) == [];
      assert ns[..|ns|] == ns;
      OverwrittenNothing(before, at);
      for i := 0 to |ns|
        invariant Valid() && len == old(len) + 8 * i && dataPtr == at + 8 * i
        invariant data[..] == Overwritten(before, at, Longs(ns[..i]))
      {
        LongsSnoc(ns[..i], ns[i]);
        assert ns[..i + 1] == ns[..i] + [ns[i]];
        AppendBytes(Le(ns[i], 8));
        OverwrittenOn(before, at, Longs(ns[..i]), Le(ns[i], 8));
      }
      OverwrittenFront(before, at, Longs(ns));
    }

    /** All items of a message in turn. */
    method AppendItems(items: seq<Item>)
      requires AllInRange(items) && RoomFor(|EncodeAll(items)|)
      modifies this`dataPtr, this`len, data
      ensures Appended(old(data[..]), old(dataPtr), old(len), EncodeAll(items))
    {
      hide Encode, InRange, Overwritten;
      ghost var before, at := data[..], dataPtr;
      ghost var done: Bytes := [];
      OverwrittenNothing(before, at);
      for i := 0 to |items|
        invariant Valid() && done + EncodeAll(items[i..]) == EncodeAll(items)
        invariant len == old(len) + |done| && dataPtr == at + |done| && data[..] == Overwritten(before, at, done)
      {
        assert EncodeAll(items[i..]) == Encode(items[i]) + EncodeAll(items[i + 1..]) by {
          assert items[i..][0] == items[i] && items[i..][1..] == items[i + 1..];
        }
        assert |EncodeAll(items)| == |done| + |Encode(items[i])| + |EncodeAll(items[i + 1..])|;
        AppendItem(items[i]);
        OverwrittenOn(before, at, done, Encode(items[i]));
        done := done + Encode(items[i]);
      }
      assert items[|items|..] == [] && done == EncodeAll(items);
      OverwrittenFront(before, at, done);
    }

    /** `prepend_item`: a new buffer with `src` before the message. */
    method PrependBytes(src: Bytes)
      requires Valid() && len >= 0 && len + |src| <= BUF_SIZE
      modifies this`data, this`dataPtr, this`len
      ensures Valid() && fresh(data) && dataPtr == old(dataPtr) + |src| && len == old(len) + |src|
      ensures Content() == src + old(Content()) && data[..] == Padded(Content())
    {
      var buf := AllocateZeroed(BUF_SIZE);
      CopyInto(buf, 0, src);
      CopyInto(buf, |src|, data[..len]);
      data := buf;
      dataPtr := dataPtr + |src|;
      len := len + |src|;
    }

    method PrependS1ap(msgType: byte, msgLen: nat, enbId: nat, mmeId: nat)
      requires Valid() && len >= 0 && len + S1AP_HDR_LEN <= BUF_SIZE
      requires HeaderInRange(S1ap(msgLen, 0, 0, enbId, mmeId))
      modifies this
      ensures Valid() && fresh(data) && len == old(len) + S1AP_HDR_LEN
      ensures s1ap == S1ap(msgLen, msgType, old(s1ap.pad), enbId, mmeId) && HeaderInRange(s1ap)
      ensures Content() == EncodeS1ap(s1ap) + old(Content()) && data[..] == Padded(Content())
    {
      s1ap := S1ap(msgLen, msgType, s1ap.pad, enbId, mmeId);
      PrependBytes(EncodeS1ap(s1ap));
    }

    /** `prepend_len`. */
    method PrependLen()
      requires Valid() && 0 <= len <= BUF_SIZE - 4
      modifies this`data, this`dataPtr, this`len
      ensures Valid() && fresh(data) && len == old(len) + 4
      ensures Content() == Le(old(len), 4) + old(Content())
    {
      PrependBytes(Le(len, 4));
    }

    method ExtractBytes(n: nat) returns (s: Bytes)
      requires Readable() && n <= |Ahead()|
      modifies this`dataPtr
      ensures Readable() && s == old(Ahead())[..n] && Ahead() == old(Ahead())[n..]
      ensures dataPtr == old(dataPtr) + n
    {
      s := data[dataPtr..dataPtr + n];
      dataPtr := dataPtr + n;
    }

    method ExtractLongs(n: nat) returns (ns: seq<nat>)
      requires Readable() && 8 * n <= |Ahead()|
      modifies this`dataPtr
      ensures Readable() && ns == OfLongs(old(Ahead()), n) && Ahead() == old(Ahead())[8 * n..]
    {
      hide OfLe, OfLongs;
      ns := [];
      ghost var s := Ahead();
      for i := 0 to n
        invariant Readable() && dataPtr == old(dataPtr) + 8 * i && 8 * (n - i) <= |Ahead()|
        invariant OfLongs(s, n) == ns + OfLongs(Ahead(), n - i)
      {
        OfLongsStep(Ahead(), n - i);
        var bytes := ExtractBytes(8);
        ns := ns + [OfLe(bytes)];
      }
      OfLongsEnd(Ahead());
    }

    /** `extract_item` of each type; `BadLength` is the error exit on a negative text length. */
    method ExtractItem(k: Kind) returns (r: Reading<Item>)
      requires Readable() && Within(k, Ahead())
      modifies this`dataPtr
      ensures Readable() && r == Decode(k, old(Ahead()))
      ensures r.Got? ==> Ahead() == r.rest
    {
      var s;
      match k
      case KBool =>
        s := ExtractBytes(1);
        r := Got(Bool(s[0] != 0), data[dataPtr..]);
      case KInt =>
        s := ExtractBytes(4);
        r := Got(Int(Signed(OfLe(s))), data[dataPtr..]);
      case K8 =>
        s := ExtractBytes(1);
        r := Got(Unsigned8(OfLe(s)), data[dataPtr..]);
      case K16 =>
        s := ExtractBytes(2);
        r := Got(Unsigned16(OfLe(s)), data[dataPtr..]);
      case K32 =>
        s := ExtractBytes(4);
        r := Got(Unsigned32(OfLe(s)), data[dataPtr..]);
      case K64 =>
        s := ExtractBytes(8);
        r := Got(Unsigned64(OfLe(s)), data[dataPtr..]);
      case KList(n) =>
        var ns := ExtractLongs(n);
        r := Got(List(ns), data[dataPtr..]);
      case KRaw(n) =>
        s := ExtractBytes(n);
        r := Got(Raw(s), data[dataPtr..]);
      case KText =>
        r := ExtractText();
    }

    method ExtractText() returns (r: Reading<Item>)
      requires Readable() && Within(KText, Ahead())
      modifies this`dataPtr
      ensures Readable() && r == Decode(KText, old(Ahead()))
      ensures r.Got? ==> Ahead() == r.rest
    {
      hide OfLe, CString;
      ghost var a := Ahead();
      var s := ExtractBytes(4);
      var n := Signed(OfLe(s));
      if n < 0 {
        return BadLength;
      }
      s := ExtractBytes(n);
      r := Got(Text(CString(s)), data[dataPtr..]);
      assert s == a[4..4 + n] && data[dataPtr..] == a[4 + n..];
    }

    /** The items of a message in turn, up to an error exit. */
    method ExtractItems(ks: seq<Kind>) returns (r: Reading<seq<Item>>)
      requires Readable() && AllWithin(ks, Ahead())
      modifies this`dataPtr
      ensures Readable() && r == DecodeAll(ks, old(Ahead()))
      decreases |ks|
    {
      hide Decode, Within;
      if ks == [] {
        return Got([], data[dataPtr..]);
      }
      var first := ExtractItem(ks[0]);
      if first.BadLength? {
        return BadLength;
      }
      r := ExtractItems(ks[1..]);
      if r.Got? {
        r := Got([first.value] + r.value, r.rest);
      }
    }

    method ExtractS1ap()
      requires Readable() && S1AP_HDR_LEN <= |Ahead()|
      modifies this`dataPtr, this`s1ap
      ensures Readable() && dataPtr == old(dataPtr) + S1AP_HDR_LEN
      ensures s1ap == DecodeS1ap(old(Ahead())[..S1AP_HDR_LEN])
    {
      var s := ExtractBytes(S1AP_HDR_LEN);
      s1ap := DecodeS1ap(s);
    }

    /** `truncate`: what has been read is dropped. */
    method Truncate()
      requires Valid() && dataPtr <= len
      modifies this`data, this`dataPtr, this`len
      ensures Valid() && fresh(data) && dataPtr == 0 && len == old(len) - old(dataPtr)
      ensures Content() == old(Content())[old(dataPtr)..] && data[..] == Padded(Content())
    {
      var buf := AllocateZeroed(BUF_SIZE);
      CopyInto(buf, 0, data[dataPtr..len]);
      data := buf;
      len := len - dataPtr;
      dataPtr := 0;
    }

    method Clear()
      requires Valid()
      modifies this`dataPtr, this`len, data
      ensures Valid() && dataPtr == 0 && len == 0 && data[..] == Zeros(BUF_SIZE)
    {
      forall k | 0 <= k < BUF_SIZE {
        data[k] := 0;
      }
      dataPtr, len := 0, 0;
    }

    /** The copy constructor: only the message is copied, not what lies behind it. */
    constructor Copy(p: Packet)
      requires p.Valid() && p.len >= 0
      ensures Valid() && fresh(data) && dataPtr == p.dataPtr && len == p.len && s1ap == p.s1ap
      ensures Content() == p.Content() && data[..] == Padded(Content())
    {
      var buf := AllocateZeroed(BUF_SIZE);
      CopyInto(buf, 0, p.data[..p.len]);
      data, dataPtr, len, s1ap := buf, p.dataPtr, p.len, p.s1ap;
    }
  }

  lemma OverwrittenNothing(buf: Bytes, at: nat)
    requires at <= |buf|
    ensures Overwritten(buf, at, []) == buf
  {
  }

  lemma OverwrittenOn(buf: Bytes, at: nat, x: Bytes, y: Bytes)
    requires at + |x| + |y| <= |buf|
    ensures |Overwritten(buf, at, x)| == |buf|
    ensures Overwritten(Overwritten(buf, at, x), at + |x|, y) == Overwritten(buf, at, x + y)
  {
  }

  lemma OverwrittenFront(buf: Bytes, at: nat, x: Bytes)
    requires at + |x| <= |buf|
    ensures |Overwritten(buf, at, x)| == |buf| && Overwritten(buf, at, x)[..at + |x|] == buf[..at] + x
  {
  }

  lemma OfLongsStep(s: Bytes, n: nat)
    requires 0 < n && 8 * n <= |s|
    ensures OfLongs(s, n) == [OfLe(s[..8])] + OfLongs(s[8..], n - 1)
  {
  }

  lemma OfLongsEnd(s: Bytes)
    ensures OfLongs(s, 0) == []
  {
  }

  lemma {:induction false} LongsSnoc(ns: seq<nat>, n: nat)
    ensures Longs(ns + [n]) == Longs(ns) + Le(n, 8)
  {
    hide Le;
    if ns != [] {
      LongsSnoc(ns[1..], n);
      assert (ns + [n])[1..] == ns[1..] + [n];
    } else {
      assert Longs([n]) == Le(n, 8) + Longs([]);
    }
  }
}
