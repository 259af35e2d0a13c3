/** A protected message from one process to another, through every layer. */
module Link {
  import opened Decimal
  import opened Wire
  import opened Packet
  import opened Network
  import opened Security

  datatype Delivery = Lost | Arrived(outcome: Outcome)

  /**
   * One packet through a fresh connection with the ends `out` and `conn`: it arrives as it was sent,
   * exactly unless a write or a read failed.
   */
  method Transfer(pkt: Packet) returns (ok: bool, q: Packet, out: Outgoing, conn: Incoming)
    requires pkt.Valid() && 1 <= pkt.len <= BUF_SIZE - LEN_SIZE
    ensures fresh(q) && q.Valid() && fresh(q.data) && fresh(out) && fresh(conn) && conn.script == out.sent
    ensures ok <==> !out.failed && !conn.failed
    ensures ok ==> q.dataPtr == 0 && q.len == pkt.len && q.Content() == pkt.Content()
  {
    hide Frame, Padded, Prefix, StartsWithFrame;
    q := new Packet();
    ghost var s := pkt.Content();
    out := new Outgoing();
    var w := WritePacket(out, pkt);
    conn := new Incoming(out.sent);
    if w <= 0 {
      return false, q, out, conn;
    }
    WholeFrame(conn.script, s);
    assert conn.script[0..] == conn.script;
    var r, overrun := ReadPacket(conn, q);
    if r <= 0 {
      return false, q, out, conn;
    }
    OneFrame(conn.script, conn.taken, q.Content(), s);
    ok := true;
  }

  lemma WholeFrame(script: Bytes, s: Bytes)
    requires script == Frame(s) && Sendable(s)
    ensures StartsWithFrame(script) && Prefix(script) <= BUF_SIZE
  {
    hide Frame, Prefix, StartsWithFrame;
    assert Framed([s]) == Frame(s) + Framed([]);
    assert [s][0..] == [s];
    NextFrame(script, [s], 0);
  }

  /**
   * Build, protect and send a message; receive, check and read it at the other end. However the
   * transfer is split, it delivers the header and the items sent, each text up to its first NUL,
   * and is lost exactly when a write or a read failed.
   */
  method Exchange(c: Suite, items: seq<Item>, msgType: byte, enbId: nat, mmeId: nat)
    returns (d: Delivery, out: Outgoing, conn: Incoming)
    requires Sound(c) && AllInRange(items) && enbId < Pow256(4) && mmeId < Pow256(4)
    requires |EncodeAll(items)| <= BUF_SIZE
    requires LEN_SIZE + S1AP_HDR_LEN + HMAC_LEN + |c.enc(EncodeAll(items))| <= BUF_SIZE
    ensures fresh(out) && fresh(conn) && conn.script == out.sent
    ensures d.Lost? <==> out.failed || conn.failed
    ensures d.Arrived? ==>
              && d.outcome.Accepted? && d.outcome.items == ReceivedAll(items)
              && d.outcome.header.msgType == msgType
              && d.outcome.header.msgLen == HMAC_LEN + |c.enc(EncodeAll(items))|
              && d.outcome.header.enbId == enbId && d.outcome.header.mmeId == mmeId
  {
    hide EncodeAll, AllInRange, ReceivedAll, Kinds, Opened, ReadsInside, Pow256;
    Widths();
    var pkt := new Packet();
    Seal(c, pkt, items, msgType, enbId, mmeId);
    SealedLength(c, pkt.s1ap, EncodeAll(items));
    OpenSealed(c, pkt.s1ap, items);
    hide Sealed;
    var ok, q;
    ok, q, out, conn := Transfer(pkt);
    if !ok {
      return Lost, out, conn;
    }
    var outcome := Open(c, q, Kinds(items));
    d := Arrived(outcome);
  }

  lemma OneFrame(script: Bytes, taken: nat, q: Bytes, s: Bytes)
    requires taken <= |script| && script == Frame(s) && script[0..taken] == Frame(q)
    requires |q| < 0x8000_0000 && |s| < 0x8000_0000
    ensures q == s
  {
    hide Frame;
    assert script == Frame(q) + script[taken..];
    assert script == Frame(s) + [];
    FrameUnique(q, script[taken..], s, []);
  }
}
