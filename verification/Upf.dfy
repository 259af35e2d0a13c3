/** The UPF's tables and its session, handover and downlink handlers. */
module Upf {
  import opened Decimal
  import opened Telecom
  import opened IpPool

  /** The members of `UeContext` that the handlers use; unset ones read as zero. */
  datatype UeContext = UeContext(
    ip: Bytes, teidUl: nat, teidDl: nat, teidSmf: nat, teidUpf: nat, enbIp: Bytes, enbPort: int)

  const FRESH := UeContext([], 0, 0, 0, 0, [], 0)

  datatype Tables = Tables(
    s11Id: map<nat, nat>,
    s1Id: map<nat, nat>,
    sgiId: map<Bytes, nat>,
    ueCtx: map<nat, UeContext>,
    hoCtx: map<nat, UeContext>,
    ipAddrs: map<nat, Bytes>)

  datatype SessionReply = SessionReply(teidUpf: nat, ip: Bytes, teidUl: nat)

  /** A handler replies, or takes the error exit that ends the process. */
  datatype Outcome<T> = Replied(tables: Tables, reply: T) | Exited

  /** `unordered_map::operator[]`: a missing entry springs up default-constructed. */
  function Entry(m: map<nat, UeContext>, key: nat): UeContext {
    if key in m then m[key] else FRESH
  }

  /** `get_imsi(11, teid)`. */
  function ImsiOf(u: Tables, teid: nat): nat {
    if teid in u.s11Id then u.s11Id[teid] else 0
  }

  function AddressFor(u: Tables, imsi: nat): Bytes {
    if imsi in u.ipAddrs then u.ipAddrs[imsi] else []
  }

  /** `UeContext::init` with the argument order of its declaration. */
  function InitContext(c: UeContext, ip: Bytes, teidSmf: nat, teidUpf: nat, teidUl: nat): UeContext {
    c.(ip := ip, teidSmf := teidSmf, teidUpf := teidUpf, teidUl := teidUl)
  }

  function CreateSession(u: Tables, teidSmf: nat, imsi: nat): (Tables, SessionReply) {
    var ul, upf := teidSmf, teidSmf;
    var ip := AddressFor(u, imsi);
    (u.(ipAddrs := u.ipAddrs[imsi := ip],
        s11Id := u.s11Id[upf := imsi],
        s1Id := u.s1Id[ul := imsi],
        sgiId := u.sgiId[ip := imsi],
        ueCtx := u.ueCtx[imsi := InitContext(Entry(u.ueCtx, imsi), ip, ul, teidSmf, upf)]),
     SessionReply(upf, ip, ul))
  }

  function ModifyBearer(u: Tables, teid: nat, dl: nat, enbIp: Bytes, enbPort: int): Outcome<bool> {
    var imsi := ImsiOf(u, teid);
    if imsi == 0 then Exited
    else
      var c := Entry(u.ueCtx, imsi).(teidDl := dl, enbIp := enbIp, enbPort := enbPort);
      Replied(u.(ueCtx := u.ueCtx[imsi := c]), true)
  }

  function Detach(u: Tables, teid: nat): Outcome<bool> {
    var imsi := ImsiOf(u, teid);
    if imsi == 0 || imsi !in u.ueCtx then Exited
    else
      var c := u.ueCtx[imsi];
      Replied(u.(s11Id := u.s11Id - {c.teidUpf}, s1Id := u.s1Id - {c.teidUl},
                 sgiId := u.sgiId - {c.ip}, ueCtx := u.ueCtx - {imsi}), true)
  }

  /** `ho_ue_ctx` is keyed by 32 bits of the IMSI. */
  function HoKey(imsi: nat): nat {
    imsi % TWO32
  }

  /** The indirect tunnel's uplink id. */
  function IndirectTeid(teidSmf: nat): nat {
    (teidSmf + 1) % TWO32
  }

  function SetupTunnel(u: Tables, teid: nat, dl: nat): (Tables, nat) {
    var imsi := ImsiOf(u, teid);
    var c := Entry(u.ueCtx, imsi);
    var ul := IndirectTeid(c.teidSmf);
    (u.(hoCtx := u.hoCtx[HoKey(imsi) := Entry(u.hoCtx, HoKey(imsi)).(teidDl := dl)],
        ueCtx := u.ueCtx[imsi := c],
        s1Id := u.s1Id[ul := imsi]),
     ul)
  }

  function CompleteHandover(u: Tables, teid: nat): Tables {
    var imsi := ImsiOf(u, teid);
    var c := Entry(u.ueCtx, imsi).(teidDl := Entry(u.hoCtx, HoKey(imsi)).teidDl);
    u.(ueCtx := u.ueCtx[imsi := c], hoCtx := u.hoCtx - {HoKey(imsi)})
  }

  function TeardownTunnel(u: Tables, teid: nat, indirect: nat): Tables {
    var imsi := ImsiOf(u, teid);
    u.(ueCtx := u.ueCtx[imsi := Entry(u.ueCtx, imsi)], s1Id := u.s1Id - {indirect})
  }

  datatype Downlink = Dropped | Sent(teidDl: nat, enbIp: Bytes, enbPort: int)

  /** `handle_downlink_udata` for a packet to the address `ip`. */
  function RouteDownlink(u: Tables, ip: Bytes): Downlink {
    var imsi := if ip in u.sgiId then u.sgiId[ip] else 0;
    if imsi == 0 || imsi !in u.ueCtx || u.ueCtx[imsi].enbPort == 0 then Dropped
    else Sent(u.ueCtx[imsi].teidDl, u.ueCtx[imsi].enbIp, u.ueCtx[imsi].enbPort)
  }

  // ---- Attach and detach on their own ----------------------------------------------------------------

  /** The four tables that a session writes. */
  ghost predicate SameSessions(u: Tables, v: Tables) {
    u.s11Id == v.s11Id && u.s1Id == v.s1Id && u.sgiId == v.sgiId && u.ueCtx == v.ueCtx
  }

  /**
   * Create session, then modify bearer, then detach never takes the error exit, and restores the
   * four tables exactly when the UE's tunnel id, address and IMSI were free before.
   */
  lemma SessionLeavesNoTrace(u: Tables, teid: nat, imsi: nat, dl: nat, enbIp: Bytes, enbPort: int)
    requires imsi != 0
    ensures var u1 := CreateSession(u, teid, imsi).0;
            var r2 := ModifyBearer(u1, teid, dl, enbIp, enbPort);
            && r2.Replied? && Detach(r2.tables, teid).Replied?
            && (SameSessions(Detach(r2.tables, teid).tables, u) <==>
                teid !in u.s11Id && teid !in u.s1Id && AddressFor(u, imsi) !in u.sgiId && imsi !in u.ueCtx)
  {
    var ip := AddressFor(u, imsi);
    var u1 := CreateSession(u, teid, imsi).0;
    var u2 := ModifyBearer(u1, teid, dl, enbIp, enbPort).tables;
    var u3 := Detach(u2, teid).tables;
    assert u3.s11Id == u.s11Id - {teid} && u3.s1Id == u.s1Id - {teid};
    assert u3.sgiId == u.sgiId - {ip} && u3.ueCtx == u.ueCtx - {imsi};
    assert forall m: map<nat, nat>, k: nat :: k !in m ==> m - {k} == m;
    assert ip !in u.sgiId ==> u.sgiId - {ip} == u.sgiId;
    assert imsi !in u.ueCtx ==> u.ueCtx - {imsi} == u.ueCtx;
  }

  // ---- The handover trio on its own -----------------------------------------------------------------

  /** Setup, completion and teardown in turn. */
  function Handover(u: Tables, teid: nat, dl: nat): Tables {
    var (u1, indirect) := SetupTunnel(u, teid, dl);
    TeardownTunnel(CompleteHandover(u1, teid), teid, indirect)
  }

  /** A UE with a session: its tunnel id leads to its context, which knows that id. */
  ghost predicate HasSession(u: Tables, teid: nat, imsi: nat) {
    teid in u.s11Id && u.s11Id[teid] == imsi && imsi in u.ueCtx && u.ueCtx[imsi].teidSmf == teid
  }

  /**
   * The trio switches the downlink to the target, leaves no handover entry for the UE and changes
   * no other context; the uplink table is restored exactly when the id after the UE's was free.
   */
  lemma HandoverEffect(u: Tables, teid: nat, imsi: nat, dl: nat)
    requires HasSession(u, teid, imsi)
    ensures var v := Handover(u, teid, dl);
            && v.ueCtx == u.ueCtx[imsi := u.ueCtx[imsi].(teidDl := dl)]
            && v.hoCtx == u.hoCtx - {HoKey(imsi)}
            && v.s11Id == u.s11Id && v.sgiId == u.sgiId && v.ipAddrs == u.ipAddrs
    ensures Handover(u, teid, dl).s1Id == u.s1Id <==> IndirectTeid(teid) !in u.s1Id
  {
    var ind := IndirectTeid(teid);
    var (u1, i1) := SetupTunnel(u, teid, dl);
    var u2 := CompleteHandover(u1, teid);
    assert i1 == ind && u1.s1Id == u.s1Id[ind := imsi] && u2.s1Id == u1.s1Id;
    assert u1.ueCtx == u.ueCtx;
    assert u2.hoCtx == u.hoCtx - {HoKey(imsi)};
    var v := Handover(u, teid, dl);
    assert v.ueCtx == u2.ueCtx;
    assert v.s1Id == u.s1Id - {ind};
    if ind !in u.s1Id {
      assert u.s1Id - {ind} == u.s1Id;
    } else {
      assert ind !in v.s1Id;
    }
  }

  /** A neighbour that holds the next id loses its uplink entry. */
  lemma NeighbourLosesUplink(u: Tables, teid: nat, imsi: nat, dl: nat, neighbour: nat)
    requires HasSession(u, teid, imsi) && IndirectTeid(teid) in u.s1Id && u.s1Id[IndirectTeid(teid)] == neighbour
    ensures IndirectTeid(teid) !in Handover(u, teid, dl).s1Id
  {
    HandoverEffect(u, teid, imsi, dl);
  }

  /** Cutting IMSIs to 32 bits confuses two of them exactly when they differ by a multiple of 2^32. */
  lemma HoKeyCollision(x: nat, y: nat)
    ensures HoKey(x) == HoKey(y) <==> (x - y) % TWO32 == 0
    ensures x != y && x < y + TWO32 && y < x + TWO32 ==> HoKey(x) != HoKey(y)
  {
    assert x == x / TWO32 * TWO32 + x % TWO32;
    assert y == y / TWO32 * TWO32 + y % TWO32;
    DifferenceMod(x / TWO32, y / TWO32, x % TWO32, y % TWO32);
  }

  lemma DifferenceMod(p: int, q: int, r: int, s: int)
    requires 0 <= r < TWO32 && 0 <= s < TWO32
    ensures r == s <==> ((p * TWO32 + r) - (q * TWO32 + s)) % TWO32 == 0
  {
    var d := (p - q) * TWO32 + (r - s);
    assert (p * TWO32 + r) - (q * TWO32 + s) == d;
    assert d % TWO32 == (r - s) % TWO32;
  }

  /** Two IMSIs get the same address exactly when both lie outside the pool, where the address is empty. */
  lemma SharedAddress(u: Tables, n: nat, x: nat, y: nat)
    requires forall imsi :: imsi in u.ipAddrs <==> FIRST_IMSI <= imsi < FIRST_IMSI + n
    requires forall i: nat :: i < n ==> u.ipAddrs[FIRST_IMSI + i] == Address(i)
    ensures AddressFor(u, x) == AddressFor(u, y) <==> x == y || (x !in u.ipAddrs && y !in u.ipAddrs)
  {
    hide Address;
    if x in u.ipAddrs {
      assert AddressFor(u, x) == Address(x - FIRST_IMSI);
      AddressInjective(x - FIRST_IMSI, x - FIRST_IMSI);
    }
    if y in u.ipAddrs {
      assert AddressFor(u, y) == Address(y - FIRST_IMSI);
      AddressInjective(y - FIRST_IMSI, y - FIRST_IMSI);
    }
    if x in u.ipAddrs && y in u.ipAddrs && AddressFor(u, x) == AddressFor(u, y) {
      AddressInjective(x - FIRST_IMSI, y - FIRST_IMSI);
    }
  }

  // ---- The class ---------------------------------------------------------------------------------------

  class Upf {
    var s11Id: map<nat, nat>
    var s1Id: map<nat, nat>
    var sgiId: map<Bytes, nat>
    var ueCtx: map<nat, UeContext>
    var hoCtx: map<nat, UeContext>
    var ipAddrs: map<nat, Bytes>

    constructor (count: nat)
      ensures s11Id == map[] && s1Id == map[] && sgiId == map[] && ueCtx == map[] && hoCtx == map[]
      ensures forall imsi :: imsi in ipAddrs <==> FIRST_IMSI <= imsi < FIRST_IMSI + count
      ensures forall i :: 0 <= i < count ==> ipAddrs[FIRST_IMSI + i] == Address(i)
    {
      s11Id, s1Id, sgiId, ueCtx, hoCtx := map[], map[], map[], map[], map[];
      var addrs := SetIpAddrs(count);
      ipAddrs := addrs;
    }

    function View(): Tables
      reads this
    {
      Tables(s11Id, s1Id, sgiId, ueCtx, hoCtx, ipAddrs)
    }

    method GetImsi(teid: nat) returns (imsi: nat)
      ensures imsi == ImsiOf(View(), teid)
    {
      imsi := 0;
      if teid in s11Id {
        imsi := s11Id[teid];
      }
    }

    method HandleCreateSession(teidSmf: nat, imsi: nat) returns (reply: SessionReply)
      modifies this
      ensures (View(), reply) == CreateSession(old(View()), teidSmf, imsi)
    {
      var teidUl := teidSmf;
      var teidUpf := teidSmf;
      var ip := if imsi in ipAddrs then ipAddrs[imsi] else [];
      ipAddrs := ipAddrs[imsi := ip];
      s11Id := s11Id[teidUpf := imsi];
      s1Id := s1Id[teidUl := imsi];
      sgiId := sgiId[ip := imsi];
      ueCtx := ueCtx[imsi := InitContext(Entry(ueCtx, imsi), ip, teidUl, teidSmf, teidUpf)];
      reply := SessionReply(teidUpf, ip, teidUl);
    }

    method HandleModifyBearer(teid: nat, dl: nat, enbIp: Bytes, enbPort: int) returns (ok: bool)
      modifies this
      ensures ok == ModifyBearer(old(View()), teid, dl, enbIp, enbPort).Replied?
      ensures ok ==> View() == ModifyBearer(old(View()), teid, dl, enbIp, enbPort).tables
      ensures !ok ==> View() == old(View())
    {
      var imsi := GetImsi(teid);
      if imsi == 0 {
        return false;
      }
      var c := Entry(ueCtx, imsi);
      c := c.(teidDl := dl);
      c := c.(enbIp := enbIp);
      c := c.(enbPort := enbPort);
      ueCtx := ueCtx[imsi := c];
      ok := true;
    }

    method HandleDetach(teid: nat) returns (ok: bool)
      modifies this
      ensures ok == Detach(old(View()), teid).Replied?
      ensures ok ==> View() == Detach(old(View()), teid).tables
      ensures !ok ==> View() == old(View())
    {
      var imsi := GetImsi(teid);
      if imsi == 0 {
        return false;
      }
      if imsi !in ueCtx {
        return false;
      }
      var c := ueCtx[imsi];
      s11Id := s11Id - {c.teidUpf};
      s1Id := s1Id - {c.teidUl};
      sgiId := sgiId - {c.ip};
      ueCtx := ueCtx - {imsi};
      ok := true;
    }

    method HandleTunnelSetup(teid: nat, dl: nat) returns (indirect: nat)
      modifies this
      ensures (View(), indirect) == SetupTunnel(old(View()), teid, dl)
    {
      var imsi := GetImsi(teid);
      hoCtx := hoCtx[HoKey(imsi) := Entry(hoCtx, HoKey(imsi)).(teidDl := dl)];
      ueCtx := ueCtx[imsi := Entry(ueCtx, imsi)];
      indirect := (ueCtx[imsi].teidSmf + 1) % TWO32;
      s1Id := s1Id[indirect := imsi];
    }

    method HandleHandoverCompletion(teid: nat)
      modifies this
      ensures View() == CompleteHandover(old(View()), teid)
    {
      var imsi := GetImsi(teid);
      hoCtx := hoCtx[HoKey(imsi) := Entry(hoCtx, HoKey(imsi))];
      ueCtx := ueCtx[imsi := Entry(ueCtx, imsi).(teidDl := hoCtx[HoKey(imsi)].teidDl)];
      hoCtx := hoCtx - {HoKey(imsi)};
    }

    method HandleTunnelTeardown(teid: nat, indirect: nat)
      modifies this
      ensures View() == TeardownTunnel(old(View()), teid, indirect)
    {
      var imsi := GetImsi(teid);
      ueCtx := ueCtx[imsi := Entry(ueCtx, imsi)];
      s1Id := s1Id - {indirect};
    }

    method HandleDownlink(ip: Bytes) returns (r: Downlink)
      ensures r == RouteDownlink(View(), ip)
    {
      var imsi := 0;
      if ip in sgiId {
        imsi := sgiId[ip];
      }
      if imsi == 0 {
        return Dropped;
      }
      r := Dropped;
      if imsi in ueCtx {
        if ueCtx[imsi].enbPort != 0 {
          r := Sent(ueCtx[imsi].teidDl, ueCtx[imsi].enbIp, ueCtx[imsi].enbPort);
        }
      }
    }
  }
}
