/** The SMF's context table and its three handlers, each of which talks to the UPF. */
module Smf {
  import opened Decimal
  import Upf

  datatype UeContext = UeContext(imsi: nat, teidMme: nat, teidSgw: nat, teidUl: nat, teidDl: nat, ip: Bytes)

  const FRESH := UeContext(0, 0, 0, 0, 0, [])

  /** Context table: guti -> context. Nothing ever leaves it. */
  type Table = map<nat, UeContext>

  function Entry(m: Table, guti: nat): UeContext {
    if guti in m then m[guti] else FRESH
  }

  /** The tables of the two functions behind the AMF, and the reply. */
  datatype Outcome<T> = Replied(smf: Table, upf: Upf.Tables, reply: T) | Exited

  function CreateSession(m: Table, u: Upf.Tables, guti: nat, imsi: nat, teidAmf: nat): Outcome<Upf.SessionReply> {
    if guti == 0 then Exited
    else
      var c := Entry(m, guti).(teidMme := teidAmf, imsi := imsi);
      var (u', r) := Upf.CreateSession(u, teidAmf, imsi);
      Replied(m[guti := c.(ip := r.ip, teidSgw := r.teidUpf, teidUl := r.teidUl)], u', r)
  }

  /** The downlink id of the request is read and then replaced by the SMF's own field. */
  function ModifyBearer(m: Table, u: Upf.Tables, guti: nat, dl: nat, enbIp: Bytes, enbPort: int): Outcome<bool> {
    if guti == 0 then Exited
    else
      var c := Entry(m, guti);
      match Upf.ModifyBearer(u, c.teidSgw, c.teidDl, enbIp, enbPort)
      case Exited => Exited
      case Replied(u', ok) => Replied(m[guti := c], u', ok)
  }

  function Detach(m: Table, u: Upf.Tables, guti: nat): Outcome<bool> {
    if guti == 0 then Exited
    else
      var c := Entry(m, guti);
      match Upf.Detach(u, c.teidSgw)
      case Exited => Exited
      case Replied(u', ok) => Replied(m[guti := c], u', ok)
  }

  class Smf {
    var ueCtx: map<nat, UeContext>

    constructor ()
      ensures ueCtx == map[]
    {
      ueCtx := map[];
    }

    method HandleCreateSession(guti: nat, imsi: nat, teidAmf: nat, upf: Upf.Upf) returns (ok: bool, reply: Upf.SessionReply)
      modifies this, upf
      ensures var r := CreateSession(old(ueCtx), old(upf.View()), guti, imsi, teidAmf);
              && ok == r.Replied?
              && (ok ==> ueCtx == r.smf && upf.View() == r.upf && reply == r.reply)
    {
      reply := Upf.SessionReply(0, [], 0);
      if guti == 0 {
        return false, reply;
      }
      hide Upf.CreateSession;
      ueCtx := ueCtx[guti := Entry(ueCtx, guti).(teidMme := teidAmf, imsi := imsi)];
      reply := upf.HandleCreateSession(ueCtx[guti].teidMme, ueCtx[guti].imsi);
      ueCtx := ueCtx[guti := ueCtx[guti].(ip := reply.ip, teidSgw := reply.teidUpf, teidUl := reply.teidUl)];
      assert ueCtx == old(ueCtx)[guti := ueCtx[guti]];
      ok := true;
    }

    method HandleModifyBearer(guti: nat, dl: nat, enbIp: Bytes, enbPort: int, upf: Upf.Upf) returns (ok: bool)
      modifies this, upf
      ensures var r := ModifyBearer(old(ueCtx), old(upf.View()), guti, dl, enbIp, enbPort);
              && ok == r.Replied?
              && (ok ==> ueCtx == r.smf && upf.View() == r.upf)
    {
      if guti == 0 {
        return false;
      }
      var teidDl := dl;
      ueCtx := ueCtx[guti := Entry(ueCtx, guti)];
      teidDl := ueCtx[guti].teidDl;
      ok := upf.HandleModifyBearer(ueCtx[guti].teidSgw, teidDl, enbIp, enbPort);
    }

    method HandleDetach(guti: nat, upf: Upf.Upf) returns (ok: bool)
      modifies this, upf
      ensures var r := Detach(old(ueCtx), old(upf.View()), guti);
              && ok == r.Replied?
              && (ok ==> ueCtx == r.smf && upf.View() == r.upf)
    {
      if guti == 0 {
        return false;
      }
      ueCtx := ueCtx[guti := Entry(ueCtx, guti)];
      ok := upf.HandleDetach(ueCtx[guti].teidSgw);
    }
  }
}
