/** Length-prefixed packets over a byte stream that may split reads and writes anywhere. */
module Network {
  import opened Decimal
  import opened Wire
  import opened Packet

  // ---- Frames ------------------------------------------------------------------------------------------

  const LEN_SIZE := 4

  function Frame(p: Bytes): Bytes {
    Le(|p|, LEN_SIZE) + p
  }

  lemma FrameLength(p: Bytes)
    ensures |Frame(p)| == LEN_SIZE + |p|
  {
  }

  function Framed(ps: seq<Bytes>): Bytes {
    if ps == [] then [] else Frame(ps[0]) + Framed(ps[1..])
  }

  /** A packet that the framing carries: not empty, and its frame fits the buffer. */
  predicate Sendable(p: Bytes) {
    1 <= |p| <= 1020
  }

  predicate AllSendable(ps: seq<Bytes>) {
    forall p :: p in ps ==> Sendable(p)
  }

  lemma {:induction false} FramedSnoc(ps: seq<Bytes>, p: Bytes)
    ensures Framed(ps + [p]) == Framed(ps) + Frame(p)
  {
    hide Frame;
    if ps == [] {
      assert Framed([p]) == Frame(p) + Framed([]);
    } else {
      FramedSnoc(ps[1..], p);
      assert (ps + [p])[1..] == ps[1..] + [p];
    }
  }

  /** The length prefix of a packet of at most 2^31 - 1 bytes reads back as its length. */
  lemma PrefixReadsBack(p: Bytes, rest: Bytes)
    requires |p| < 0x8000_0000
    ensures Signed(OfLe((Frame(p) + rest)[..LEN_SIZE])) == |p|
    ensures (Frame(p) + rest)[LEN_SIZE..] == p + rest
  {
    hide Le, OfLe, Pow256;
    assert (Frame(p) + rest)[..LEN_SIZE] == Le(|p|, LEN_SIZE);
    LeReadsBack(|p|, LEN_SIZE);
    Widths();
  }

  /** Two frames that start the same stream are the same frame. */
  lemma FrameUnique(p: Bytes, x: Bytes, q: Bytes, y: Bytes)
    requires |p| < 0x8000_0000 && |q| < 0x8000_0000 && Frame(p) + x == Frame(q) + y
    ensures p == q && x == y
  {
    hide Frame;
    PrefixReadsBack(p, x);
    PrefixReadsBack(q, y);
    assert p == (p + x)[..|p|] && q == (q + y)[..|q|];
    assert x == (p + x)[|p|..] && y == (q + y)[|q|..];
  }

  /** Frames that start a framed stream are its first packets, and what follows frames the others. */
  lemma {:induction false} FramesAreFirst(got: seq<Bytes>, rest: Bytes, ps: seq<Bytes>)
    requires AllSendable(got) && AllSendable(ps) && Framed(got) + rest == Framed(ps)
    ensures got <= ps && rest == Framed(ps[|got|..])
  {
    hide Frame;
    if got == [] {
      assert Framed(got) + rest == rest;
    } else {
      var tail := Framed(got[1..]) + rest;
      assert got[0] in got;
      assert Framed(got) + rest == Frame(got[0]) + tail;
      FrameLength(got[0]);
      assert ps != [] && ps[0] in ps;
      FrameUnique(got[0], tail, ps[0], Framed(ps[1..]));
      assert forall p :: p in got[1..] ==> p in got;
      assert forall p :: p in ps[1..] ==> p in ps;
      FramesAreFirst(got[1..], rest, ps[1..]);
      assert ps[1..][|got| - 1..] == ps[|got|..];
    }
  }

  // ---- The two ends of a connection ------------------------------------------------------------------------

  /** The writing end: what the kernel has accepted so far. `failed` records that a write failed. */
  class Outgoing {
    var sent: Bytes
    ghost var failed: bool

    constructor ()
      ensures sent == [] && !failed
    {
      sent, failed := [], false;
    }

    /** `write`: the kernel accepts as many of the bytes as it likes, or fails. */
    method Write(buf: array<byte>, at: nat, n: nat) returns (r: int)
      requires at + n <= buf.Length
      modifies this
      ensures r <= n
      ensures sent == old(sent) + if r > 0 then buf[at..at + r] else []
      ensures failed == (old(failed) || r <= 0)
    {
      r :| -1 <= r <= n;
      if r > 0 {
        sent := sent + buf[at..at + r];
      } else {
        failed := true;
      }
    }
  }

  /**
   * The reading end: all the bytes that the peer ever sends, and how many have been read. `failed`
   * records that a read failed before the end of them.
   */
  class Incoming {
    const script: Bytes
    var taken: nat
    ghost var failed: bool

    constructor (script: Bytes)
      ensures this.script == script && taken == 0 && !failed
    {
      this.script, taken, failed := script, 0, false;
    }

    ghost predicate Valid()
      reads this
    {
      taken <= |script|
    }

    /** `read`: the kernel hands over as many of the next bytes as it likes, or fails. */
    method Read(buf: array<byte>, at: nat, n: nat) returns (r: int)
      requires Valid() && at + n <= buf.Length
      modifies this, buf
      ensures Valid() && r <= n
      ensures r <= 0 ==> taken == old(taken) && buf[..] == old(buf[..])
      ensures r > 0 ==> taken == old(taken) + r
                        && buf[..] == Overwritten(old(buf[..]), at, script[old(taken)..taken])
      ensures failed == (old(failed) || (r <= 0 && taken < |script|))
    {
      r :| -1 <= r <= n && taken + r <= |script|;
      if r > 0 {
        CopyInto(buf, at, script[taken..taken + r]);
        taken := taken + r;
      } else if taken < |script| {
        failed := true;
      }
    }
  }

  // ---- The loops over partial reads and writes ----------------------------------------------------------------

  /** `write_stream`: all bytes, or a first part of them exactly when a write failed. */
  method WriteStream(conn: Outgoing, buf: array<byte>, len: int) returns (r: int)
    requires len <= buf.Length
    modifies conn
    ensures r == len > 0 || r <= 0
    ensures r > 0 ==> conn.sent == old(conn.sent) + buf[..len]
    ensures len > 0 ==> old(conn.sent) <= conn.sent <= old(conn.sent) + buf[..len]
    ensures len > 0 ==> conn.failed == (old(conn.failed) || r <= 0)
    ensures len <= 0 ==> conn.sent == old(conn.sent) && conn.failed == old(conn.failed) && r == -1
  {
    if len <= 0 {
      return -1;
    }
    var at, remaining := 0, len;
    while true
      invariant 0 <= at && 0 < remaining && at + remaining == len
      invariant conn.sent == old(conn.sent) + buf[..at] && conn.failed == old(conn.failed)
      decreases remaining
    {
      var n := conn.Write(buf, at, remaining);
      if n <= 0 {
        assert buf[..len] == buf[..at] + buf[at..len];
        return n;
      }
      assert buf[..at + n] == buf[..at] + buf[at..at + n];
      at := at + n;
      remaining := remaining - n;
      if remaining == 0 {
        return len;
      }
    }
  }

  /**
   * `read_stream`: all bytes, or fewer exactly when a read failed or the peer's bytes ran out; what
   * was read stands at the front of the buffer.
   */
  method ReadStream(conn: Incoming, buf: array<byte>, len: int) returns (r: int)
    requires conn.Valid() && len <= buf.Length
    modifies conn, buf
    ensures conn.Valid() && (r == len > 0 || r <= 0)
    ensures var k := conn.taken - old(conn.taken);
            && 0 <= k <= buf.Length
            && (if len > 0 then k <= len && (r > 0 <==> k == len) else k == 0 && r == -1)
            && buf[..] == Overwritten(old(buf[..]), 0, conn.script[old(conn.taken)..conn.taken])
    ensures len > 0 ==> conn.failed == (old(conn.failed) || (r <= 0 && conn.taken < |conn.script|))
    ensures len <= 0 ==> conn.failed == old(conn.failed)
  {
    hide Overwritten;
    ghost var ahead := conn.script[conn.taken..];
    OverwrittenNone(buf[..]);
    if len <= 0 {
      assert conn.script[old(conn.taken)..conn.taken] == [];
      return -1;
    }
    var at, remaining := 0, len;
    assert conn.script[old(conn.taken)..conn.taken] == [];
    while true
      invariant conn.Valid() && 0 <= at && 0 < remaining && at + remaining == len
      invariant conn.taken == old(conn.taken) + at && conn.failed == old(conn.failed)
      invariant buf[..] == Overwritten(old(buf[..]), 0, conn.script[old(conn.taken)..conn.taken])
      decreases remaining
    {
      var n := conn.Read(buf, at, remaining);
      if n <= 0 {
        return n;
      }
      assert ahead[at..at + n] == conn.script[old(conn.taken) + at..conn.taken];
      assert ahead[..at] == conn.script[old(conn.taken)..old(conn.taken) + at];
      assert ahead[..at + n] == conn.script[old(conn.taken)..conn.taken];
      OverwrittenTwice(old(buf[..]), at, ahead, n);
      at := at + n;
      remaining := remaining - n;
      if remaining == 0 {
        return len;
      }
    }
  }

  lemma OverwrittenNone(buf: Bytes)
    ensures Overwritten(buf, 0, []) == buf
  {
  }

  lemma OverwrittenTwice(buf: Bytes, at: nat, s: Bytes, n: nat)
    requires at + n <= |buf| && at + n <= |s|
    ensures Overwritten(Overwritten(buf, 0, s[..at]), at, s[at..at + n]) == Overwritten(buf, 0, s[..at + n])
  {
  }

  /** Bytes read into a cleared buffer. */
  lemma FilledBuffer(s: Bytes)
    requires |s| <= BUF_SIZE
    ensures |Zeros(BUF_SIZE)| == BUF_SIZE && Overwritten(Zeros(BUF_SIZE), 0, s) == Padded(s)
    ensures |Padded(s)| == BUF_SIZE && Padded(s)[..|s|] == s
  {
  }

  // ---- Packets ---------------------------------------------------------------------------------------------------

  /** `write_sctp_pkt` works on a copy of the packet. */
  method WritePacket(conn: Outgoing, pkt: Packet) returns (r: int)
    requires pkt.Valid() && 0 <= pkt.len <= BUF_SIZE - LEN_SIZE
    modifies conn
    ensures r > 0 ==> r == pkt.len + LEN_SIZE && conn.sent == old(conn.sent) + Frame(pkt.Content())
    ensures old(conn.sent) <= conn.sent <= old(conn.sent) + Frame(pkt.Content())
    ensures conn.failed == (old(conn.failed) || r <= 0)
  {
    var copy := new Packet.Copy(pkt);
    copy.PrependLen();
    r := WriteStream(conn, copy.data, copy.len);
  }

  /** The number that the first four bytes stand for. */
  function Prefix(s: Bytes): int
    requires |s| >= LEN_SIZE
  {
    Signed(OfLe(s[..LEN_SIZE]))
  }

  /** `s` starts with the frame of a packet that fits the buffer. */
  predicate StartsWithFrame(s: Bytes) {
    |s| >= LEN_SIZE && 1 <= Prefix(s) <= BUF_SIZE && LEN_SIZE + Prefix(s) <= |s|
  }

  /**
   * `read_sctp_pkt`: on success the bytes taken are exactly the frame of the packet, and unless a
   * read fails every frame that is there is read. `overrun` tells of a length prefix larger than the
   * buffer, where the code would write past its end.
   */
  method ReadPacket(conn: Incoming, pkt: Packet) returns (r: int, overrun: bool)
    requires conn.Valid() && pkt.Valid()
    modifies conn, pkt`dataPtr, pkt`len, pkt.data
    ensures conn.Valid() && pkt.Valid() && conn.taken >= old(conn.taken)
    ensures r > 0 && !overrun ==>
              && pkt.dataPtr == 0 && pkt.len == r && pkt.data[..] == Padded(pkt.Content())
              && conn.script[old(conn.taken)..conn.taken] == Frame(pkt.Content())
              && conn.failed == old(conn.failed)
    ensures var ahead := conn.script[old(conn.taken)..];
            && (StartsWithFrame(ahead) && !conn.failed ==> r > 0 && !overrun)
            && (overrun <==> conn.taken >= old(conn.taken) + LEN_SIZE && Prefix(ahead) > BUF_SIZE)
            && (conn.taken >= old(conn.taken) + LEN_SIZE && Prefix(ahead) <= 0 ==> r == -1)
    ensures overrun ==> r > 0 && conn.taken == old(conn.taken) + LEN_SIZE
  {
    hide Le, OfLe, Overwritten, Padded, Zeros, Frame;
    overrun := false;
    ghost var first := conn.taken;
    ghost var ahead := conn.script[first..];
    pkt.Clear();
    r := ReadStream(conn, pkt.data, LEN_SIZE);
    if r > 0 {
      var prefix := pkt.data[..LEN_SIZE];
      FilledBuffer(conn.script[first..conn.taken]);
      assert prefix == conn.script[first..conn.taken] == ahead[..LEN_SIZE];
      var n := Signed(OfLe(prefix));
      assert n == Prefix(ahead);
      pkt.Clear();
      if n > BUF_SIZE {
        return 1, true;
      }
      ghost var start := conn.taken;
      r := ReadStream(conn, pkt.data, n);
      pkt.dataPtr, pkt.len := 0, r;
      if r > 0 {
        FilledBuffer(conn.script[start..conn.taken]);
        assert pkt.Content() == conn.script[start..conn.taken];
        FrameOf(conn.script, first, conn.taken, pkt.Content());
      }
    }
  }

  /** A prefix and as many bytes as it says are a frame. */
  lemma FrameOf(script: Bytes, first: nat, end: nat, p: Bytes)
    requires first + LEN_SIZE <= end <= |script| && p == script[first + LEN_SIZE..end]
    requires Prefix(script[first..]) == |p|
    ensures script[first..end] == Frame(p)
  {
    hide Le, OfLe;
    var prefix := script[first..][..LEN_SIZE];
    PrefixWritesBack(prefix);
    assert script[first..end] == prefix + p;
  }

  /** Four bytes that read as a length are the bytes of that length. */
  lemma PrefixWritesBack(s: Bytes)
    requires |s| == LEN_SIZE && Signed(OfLe(s)) >= 0
    ensures Le(Signed(OfLe(s)), LEN_SIZE) == s
  {
    hide Le, OfLe;
    OfLeBound(s);
    Widths();
    LeOfLe(s);
  }

  lemma {:induction false} LeOfLe(s: Bytes)
    ensures Le(OfLe(s), |s|) == s
  {
    if s != [] {
      LeOfLe(s[1..]);
      var n := OfLe(s);
      assert n % 256 == s[0] && n / 256 == OfLe(s[1..]);
    }
  }

  // ---- Whole conversations ----------------------------------------------------------------------------------------

  /**
   * Sends packets until one fails. Unless a write fails all of them are on the stream as frames, and
   * those reported sent are there in any case.
   */
  method SendAll(conn: Outgoing, ps: seq<Bytes>) returns (count: nat)
    requires conn.sent == [] && AllSendable(ps)
    modifies conn
    ensures count <= |ps|
    ensures Framed(ps[..count]) <= conn.sent
    ensures count == |ps| ==> conn.sent == Framed(ps)
    ensures conn.failed == (old(conn.failed) || count < |ps|)
  {
    count := 0;
    var pkt := new Packet();
    while count < |ps|
      invariant count <= |ps| && conn.sent == Framed(ps[..count]) && conn.failed == old(conn.failed)
      invariant pkt.Valid() && fresh(pkt) && fresh(pkt.data)
    {
      assert ps[count] in ps;
      pkt.Clear();
      pkt.AppendBytes(ps[count]);
      assert pkt.Content() == ps[count];
      assert ps[..count + 1] == ps[..count] + [ps[count]];
      FramedSnoc(ps[..count], ps[count]);
      var r := WritePacket(conn, pkt);
      if r <= 0 {
        return;
      }
      count := count + 1;
    }
    assert ps[..count] == ps;
  }

  /** A length prefix in a stream of sendable packets never exceeds the buffer. */
  lemma NoOverrun(stream: Bytes, ps: seq<Bytes>)
    requires stream == Framed(ps) && AllSendable(ps) && |stream| >= LEN_SIZE
    ensures 1 <= Prefix(stream) <= BUF_SIZE - LEN_SIZE && StartsWithFrame(stream)
  {
    hide Frame, OfLe;
    assert ps[0] in ps;
    PrefixReadsBack(ps[0], Framed(ps[1..]));
    FrameLength(ps[0]);
  }

  /** Taking one frame off the stream takes the next packet of the peer. */
  lemma Advance(script: Bytes, start: nat, end: nat, p: Bytes, got: seq<Bytes>, ps: seq<Bytes>)
    requires AllSendable(ps) && got <= ps && start <= end <= |script| && 1 <= |p| <= BUF_SIZE
    requires script[..start] == Framed(got) && script[start..] == Framed(ps[|got|..])
    requires script[start..end] == Frame(p)
    ensures got + [p] <= ps
    ensures script[..end] == Framed(got + [p]) && script[end..] == Framed(ps[|got| + 1..])
  {
    hide Frame, Framed, AllSendable;
    assert script[start..] == Frame(p) + script[end..];
    assert script[..end] == Framed(got) + Frame(p);
    FramedSnoc(got, p);
    NextPacket(p, script[end..], ps, |got|);
  }

  lemma NextPacket(p: Bytes, after: Bytes, ps: seq<Bytes>, k: nat)
    requires AllSendable(ps) && k <= |ps| && |p| <= BUF_SIZE && Frame(p) + after == Framed(ps[k..])
    ensures k < |ps| && ps[k] == p && after == Framed(ps[k + 1..])
  {
    hide Frame, Framed;
    var rest := ps[k..];
    FrameLength(p);
    FramedFirst(rest);
    assert rest[0] == ps[k] && ps[k] in ps && rest[1..] == ps[k + 1..];
    FrameUnique(p, after, rest[0], Framed(rest[1..]));
  }

  lemma FramedFirst(ps: seq<Bytes>)
    requires |Framed(ps)| > 0
    ensures ps != [] && Framed(ps) == Frame(ps[0]) + Framed(ps[1..])
  {
  }

  lemma NoFrames()
    ensures Framed([]) == []
  {
  }

  /** What the stream holds next: the frame of the next packet, or nothing after the last. */
  lemma NextFrame(stream: Bytes, ps: seq<Bytes>, k: nat)
    requires AllSendable(ps) && k <= |ps| && stream == Framed(ps[k..])
    ensures k < |ps| ==> StartsWithFrame(stream) && Prefix(stream) <= BUF_SIZE
    ensures k == |ps| ==> stream == []
  {
    hide Frame, Prefix, StartsWithFrame;
    if k < |ps| {
      FrameLength(ps[k..][0]);
      assert forall p :: p in ps[k..] ==> p in ps;
      NoOverrun(stream, ps[k..]);
    }
  }

  /**
   * Reads up to `limit` packets from a peer that sends the packets `ps`. However the bytes are split,
   * unless a read fails the receiver gets exactly the sent packets, all or as many as it asks for,
   * in order, and the stream is left at a packet boundary; after a failed read it has a first part
   * of them. No length prefix overruns the buffer.
   */
  method ReceiveAll(conn: Incoming, limit: nat, ghost ps: seq<Bytes>) returns (got: seq<Bytes>)
    requires conn.Valid() && conn.taken == 0 && AllSendable(ps) && conn.script == Framed(ps)
    modifies conn
    ensures |got| <= limit && got <= ps
    ensures |got| < limit && |got| < |ps| ==> conn.failed
    ensures !conn.failed ==> got == (if limit < |ps| then ps[..limit] else ps)
    ensures !conn.failed ==> conn.Valid() && conn.script[conn.taken..] == Framed(ps[|got|..])
  {
    hide Framed, Frame, Prefix, StartsWithFrame;
    NoFrames();
    got := [];
    var pkt := new Packet();
    assert conn.script[..0] == [] && conn.script[0..] == conn.script && ps[0..] == ps;
    while |got| < limit
      invariant conn.Valid() && pkt.Valid() && fresh(pkt) && fresh(pkt.data)
      invariant |got| <= limit && got <= ps
      invariant conn.script[..conn.taken] == Framed(got) && conn.script[conn.taken..] == Framed(ps[|got|..])
      decreases limit - |got|
    {
      ghost var start := conn.taken;
      NextFrame(conn.script[start..], ps, |got|);
      var r, overrun := ReadPacket(conn, pkt);
      if r <= 0 {
        return;
      }
      Advance(conn.script, start, conn.taken, pkt.Content(), got, ps);
      got := got + [pkt.data[..r]];
    }
  }

  /**
   * A whole conversation over a connection with the ends `out` and `conn`: unless a write or a read
   * fails the receiver gets all packets in order and the stream is used up.
   */
  method Deliver(ps: seq<Bytes>) returns (got: seq<Bytes>, out: Outgoing, conn: Incoming)
    requires AllSendable(ps)
    ensures fresh(out) && fresh(conn) && conn.script == out.sent && got <= ps
    ensures !out.failed && !conn.failed ==> got == ps && conn.taken == |conn.script|
    ensures got != ps ==> out.failed || conn.failed
  {
    hide Framed, AllSendable;
    out := new Outgoing();
    var count := SendAll(out, ps);
    conn := new Incoming(out.sent);
    got := [];
    if count == |ps| {
      got := ReceiveAll(conn, |ps|, ps);
      NoFrames();
      assert ps[|ps|..] == [];
    }
  }
}
