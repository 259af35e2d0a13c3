/** Protection of NAS messages: encrypt, authenticate, prepend the S1AP header, and the way back. */
module Security {
  import opened Decimal
  import opened Wire
  import opened Packet

  const HMAC_LEN: nat := 20

  datatype Plain = Plain(text: Bytes) | Garbled

  /** The library's cipher and MAC, with the fixed keys that the code gives them. */
  datatype Suite = Suite(enc: Bytes -> Bytes, dec: Bytes -> Plain, mac: Bytes -> Bytes)

  /** Decryption undoes encryption, encryption adds at most one block, the MAC has its length. */
  ghost predicate Sound(c: Suite) {
    && (forall p: Bytes :: c.dec(c.enc(p)) == Plain(p) && |c.enc(p)| <= |p| + 16)
    && (forall t: Bytes :: c.dec(t).Plain? ==> |c.dec(t).text| <= |t|)
    && (forall d: Bytes :: |c.mac(d)| == HMAC_LEN)
  }

  // ---- The effect on the packet ------------------------------------------------------------------------

  method Encrypt(c: Suite, pkt: Packet)
    requires pkt.Valid() && pkt.len >= 0 && |c.enc(pkt.Content())| <= BUF_SIZE
    modifies pkt`data, pkt`dataPtr, pkt`len
    ensures pkt.Valid() && fresh(pkt.data) && pkt.dataPtr == 0 && pkt.len == |c.enc(old(pkt.Content()))|
    ensures pkt.Content() == c.enc(old(pkt.Content())) && pkt.data[..] == Padded(pkt.Content())
  {
    var buf := AllocateZeroed(BUF_SIZE);
    var text := c.enc(pkt.data[..pkt.len]);
    CopyInto(buf, 0, text);
    pkt.data, pkt.dataPtr, pkt.len := buf, 0, |text|;
  }

  /** `dec`; false is the error exit on a text that does not decrypt. */
  method Decrypt(c: Suite, pkt: Packet) returns (ok: bool)
    requires Sound(c) && pkt.Valid() && pkt.dataPtr <= pkt.len
    modifies pkt`data, pkt`dataPtr, pkt`len
    ensures pkt.Valid() && fresh(pkt.data) && pkt.dataPtr == 0
    ensures var p := c.dec(old(pkt.Content())[old(pkt.dataPtr)..]);
            && ok == p.Plain?
            && (ok ==> pkt.len == |p.text| && pkt.Content() == p.text && pkt.data[..] == Padded(p.text))
  {
    pkt.Truncate();
    var p := c.dec(pkt.data[..pkt.len]);
    if p.Garbled? {
      return false;
    }
    var buf := AllocateZeroed(BUF_SIZE);
    CopyInto(buf, 0, p.text);
    pkt.data, pkt.dataPtr, pkt.len := buf, 0, |p.text|;
    ok := true;
  }

  method AddHmac(c: Suite, pkt: Packet)
    requires pkt.Valid() && pkt.len >= 0 && pkt.len + |c.mac(pkt.Content())| <= BUF_SIZE
    modifies pkt`data, pkt`dataPtr, pkt`len
    ensures pkt.Valid() && fresh(pkt.data) && pkt.len >= 0
    ensures pkt.Content() == c.mac(old(pkt.Content())) + old(pkt.Content())
  {
    pkt.PrependBytes(c.mac(pkt.data[..pkt.len]));
  }

  method RemoveHmac(pkt: Packet) returns (hmac: Bytes)
    requires pkt.Valid() && pkt.dataPtr + HMAC_LEN <= pkt.len
    modifies pkt`data, pkt`dataPtr, pkt`len
    ensures pkt.Valid() && fresh(pkt.data) && pkt.dataPtr == 0 && pkt.len >= 0
    ensures hmac == old(pkt.Content())[old(pkt.dataPtr)..old(pkt.dataPtr) + HMAC_LEN]
    ensures pkt.Content() == old(pkt.Content())[old(pkt.dataPtr) + HMAC_LEN..]
  {
    hmac := pkt.ExtractBytes(HMAC_LEN);
    pkt.Truncate();
  }

  /** `cmp_hmacs` finds whether two MACs agree in every byte. */
  method CompareHmacs(x: Bytes, y: Bytes) returns (same: bool)
    requires |x| == HMAC_LEN && |y| == HMAC_LEN
    ensures same <==> x == y
  {
    for i := 0 to HMAC_LEN
      invariant forall k :: 0 <= k < i ==> x[k] == y[k]
    {
      if x[i] != y[i] {
        return false;
      }
    }
    same := true;
  }

  method CheckHmac(c: Suite, pkt: Packet) returns (ok: bool)
    requires Sound(c) && pkt.Valid() && pkt.dataPtr + HMAC_LEN <= pkt.len
    modifies pkt`data, pkt`dataPtr, pkt`len
    ensures pkt.Valid() && fresh(pkt.data) && pkt.dataPtr == 0 && pkt.len >= 0
    ensures pkt.Content() == old(pkt.Content())[old(pkt.dataPtr) + HMAC_LEN..]
    ensures ok <==> old(pkt.Content())[old(pkt.dataPtr)..old(pkt.dataPtr) + HMAC_LEN] == c.mac(pkt.Content())
  {
    var expected := RemoveHmac(pkt);
    var actual := c.mac(pkt.data[..pkt.len]);
    ok := CompareHmacs(actual, expected);
  }

  // ---- The whole way out and back -----------------------------------------------------------------------

  /** The bytes of a protected message with header `h`. */
  function Sealed(c: Suite, h: S1ap, payload: Bytes): Bytes
    requires HeaderInRange(h)
  {
    var t := c.enc(payload);
    EncodeS1ap(h) + (c.mac(t) + t)
  }

  datatype Outcome = Accepted(header: S1ap, items: seq<Item>) | HmacError | CryptError | LengthError

  /** The reader stays inside the decrypted buffer. */
  predicate ReadsInside(c: Suite, s: Bytes, ks: seq<Kind>) {
    |s| >= S1AP_HDR_LEN + HMAC_LEN &&
    match c.dec(s[S1AP_HDR_LEN + HMAC_LEN..])
    case Garbled => true
    case Plain(p) => |p| <= BUF_SIZE && AllWithin(ks, Padded(p))
  }

  /** What a receiver makes of the message `s` when it asks for items of the given kinds. */
  function Opened(c: Suite, s: Bytes, ks: seq<Kind>): Outcome
    requires ReadsInside(c, s, ks)
  {
    var body := s[S1AP_HDR_LEN..];
    var t := body[HMAC_LEN..];
    assert t == s[S1AP_HDR_LEN + HMAC_LEN..];
    if body[..HMAC_LEN] != c.mac(t) then HmacError
    else
      match c.dec(t)
      case Garbled => CryptError
      case Plain(p) =>
        match DecodeAll(ks, Padded(p))
        case BadLength => LengthError
        case Got(items, _) => Accepted(DecodeS1ap(s[..S1AP_HDR_LEN]), items)
  }

  /**
   * Whatever is sealed is opened: the check passes, and the header and the items are the ones sent,
   * each text up to its first NUL.
   */
  lemma OpenSealed(c: Suite, h: S1ap, items: seq<Item>)
    requires Sound(c) && HeaderInRange(h) && AllInRange(items) && |EncodeAll(items)| <= BUF_SIZE
    ensures var s := Sealed(c, h, EncodeAll(items));
            && ReadsInside(c, s, Kinds(items))
            && Opened(c, s, Kinds(items)) == Accepted(h, ReceivedAll(items))
  {
    hide HeaderInRange, EncodeS1ap, DecodeS1ap, AllWithin, DecodeAll, EncodeAll, Kinds, ReceivedAll;
    var p := EncodeAll(items);
    var t := c.enc(p);
    var s := Sealed(c, h, p);
    assert s[..S1AP_HDR_LEN] == EncodeS1ap(h) && s[S1AP_HDR_LEN..] == c.mac(t) + t;
    assert s[S1AP_HDR_LEN..][..HMAC_LEN] == c.mac(t) && s[S1AP_HDR_LEN..][HMAC_LEN..] == t;
    assert s[S1AP_HDR_LEN + HMAC_LEN..] == t;
    ItemsReadBack(items, Zeros(BUF_SIZE - |p|));
    S1apReadsBack(h);
  }

  /** The protected message fits the buffer, and even a frame of it, for every payload up to 972 bytes. */
  lemma SealedLength(c: Suite, h: S1ap, payload: Bytes)
    requires Sound(c) && HeaderInRange(h)
    ensures |Sealed(c, h, payload)| == 12 + 20 + |c.enc(payload)| <= |payload| + 48
    ensures |payload| <= 972 ==> |Sealed(c, h, payload)| <= 1020
  {
  }

  /** Clear, append the items, encrypt, add the MAC and prepend the header. */
  method Seal(c: Suite, pkt: Packet, items: seq<Item>, msgType: byte, enbId: nat, mmeId: nat)
    requires Sound(c) && pkt.Valid() && AllInRange(items) && HeaderInRange(S1ap(0, 0, 0, enbId, mmeId))
    requires |EncodeAll(items)| <= BUF_SIZE && |c.enc(EncodeAll(items))| + HMAC_LEN + S1AP_HDR_LEN <= BUF_SIZE
    modifies pkt, pkt.data
    ensures pkt.Valid() && fresh(pkt.data) && pkt.len >= 0
    ensures pkt.s1ap == S1ap(|c.enc(EncodeAll(items))| + HMAC_LEN, msgType, old(pkt.s1ap.pad), enbId, mmeId)
    ensures HeaderInRange(pkt.s1ap) && pkt.Content() == Sealed(c, pkt.s1ap, EncodeAll(items))
  {
    hide EncodeAll, AllInRange, EncodeS1ap;
    Widths();
    pkt.Clear();
    pkt.AppendItems(items);
    ghost var p := EncodeAll(items);
    assert pkt.Content() == p;
    Encrypt(c, pkt);
    AddHmac(c, pkt);
    assert pkt.Content() == c.mac(c.enc(p)) + c.enc(p);
    pkt.PrependS1ap(msgType, pkt.len, enbId, mmeId);
  }

  /** Extract the header, check the MAC, decrypt and extract the items. */
  method Open(c: Suite, pkt: Packet, ks: seq<Kind>) returns (r: Outcome)
    requires Sound(c) && pkt.Valid() && pkt.dataPtr == 0 && pkt.len >= 0 && ReadsInside(c, pkt.Content(), ks)
    modifies pkt
    ensures pkt.Valid() && r == Opened(c, old(pkt.Content()), ks)
  {
    hide DecodeS1ap, AllWithin, DecodeAll;
    ghost var s := pkt.Content();
    assert pkt.Ahead()[..S1AP_HDR_LEN] == s[..S1AP_HDR_LEN];
    pkt.ExtractS1ap();
    assert s[S1AP_HDR_LEN..][..HMAC_LEN] == s[S1AP_HDR_LEN..S1AP_HDR_LEN + HMAC_LEN];
    assert s[S1AP_HDR_LEN..][HMAC_LEN..] == s[S1AP_HDR_LEN + HMAC_LEN..];
    var ok := CheckHmac(c, pkt);
    if !ok {
      return HmacError;
    }
    ok := Decrypt(c, pkt);
    if !ok {
      return CryptError;
    }
    var items := pkt.ExtractItems(ks);
    r := if items.BadLength? then LengthError else Accepted(pkt.s1ap, items.value);
  }
}
