/** The AMF's tables and handlers; sessions go through the SMF, handovers straight to the UPF. */
module Amf {
  import opened Decimal
  import opened Characters
  import opened Telecom
  import Upf
  import Smf

  datatype UeContext = UeContext(
    imsi: nat, enbId: nat, mmeId: nat, teidAmf: nat, teidUpf: nat, teidUl: nat, teidDl: nat, ip: Bytes,
    emmState: int, ecmState: int)

  const FRESH := UeContext(0, 0, 0, 0, 0, 0, 0, [], 0, 0)

  datatype Tables = Tables(ueCount: nat, s1AmfId: map<nat, nat>, ueCtx: map<nat, UeContext>)

  /** The endpoint announced to the UPF, `g_trafmon_ip_addr` ("172.18.0.2") and `g_trafmon_port`. */
  const TRAFMON_IP: Bytes := Ascii("172.18.0.2")
  const TRAFMON_PORT: int := 4000

  /** The three functions of the core together. */
  datatype Core = Core(amf: Tables, smf: Smf.Table, upf: Upf.Tables)

  datatype Outcome = Done(core: Core) | Exited

  function Entry(m: map<nat, UeContext>, guti: nat): UeContext {
    if guti in m then m[guti] else FRESH
  }

  /** `get_guti`. */
  function GutiOf(a: Tables, mmeId: nat): nat {
    if mmeId in a.s1AmfId then a.s1AmfId[mmeId] else 0
  }

  /** `handle_initial_attach` up to the reply: the new id is the low 32 bits of the attach count. */
  function InitialAttach(a: Tables, imsi: nat, enbId: nat): (Tables, nat) {
    var guti := AmfGuti(imsi);
    var count := a.ueCount + 1;
    var id := count % TWO32;
    (Tables(count, a.s1AmfId[id := guti],
            a.ueCtx[guti := Entry(a.ueCtx, guti).(imsi := imsi, enbId := enbId, mmeId := id)]),
     id)
  }

  function CreateSession(c: Core, mmeId: nat): Outcome {
    var guti := GutiOf(c.amf, mmeId);
    if guti == 0 then Exited
    else
      var ctx := Entry(c.amf.ueCtx, guti).(teidAmf := SlicedTeid(guti));
      match Smf.CreateSession(c.smf, c.upf, guti, ctx.imsi, ctx.teidAmf)
      case Exited => Exited
      case Replied(smf, upf, r) =>
        var ctx' := ctx.(ip := r.ip, teidUpf := r.teidUpf, teidUl := r.teidUl);
        Done(Core(c.amf.(ueCtx := c.amf.ueCtx[guti := ctx']), smf, upf))
  }

  /** `handle_attach_complete` followed by `handle_modify_bearer`, as the server loop calls them. */
  function AttachComplete(c: Core, mmeId: nat, dl: nat): Outcome {
    var guti := GutiOf(c.amf, mmeId);
    if guti == 0 then Exited
    else
      var ctx := Entry(c.amf.ueCtx, guti).(teidDl := dl, emmState := 1);
      match Smf.ModifyBearer(c.smf, c.upf, guti, ctx.teidDl, TRAFMON_IP, TRAFMON_PORT)
      case Exited => Exited
      case Replied(smf, upf, ok) =>
        var ctx' := if ok then ctx.(ecmState := 1) else ctx;
        Done(Core(c.amf.(ueCtx := c.amf.ueCtx[guti := ctx']), smf, upf))
  }

  /** `handle_detach`: the GUTI in the message replaces the one looked up. */
  function Detach(c: Core, mmeId: nat, guti: nat): Outcome {
    if GutiOf(c.amf, mmeId) == 0 then Exited
    else
      match Smf.Detach(c.smf, c.upf, guti)
      case Exited => Exited
      case Replied(smf, upf, ok) =>
        if !ok then Done(Core(c.amf, smf, upf))
        else Done(Core(c.amf.(s1AmfId := c.amf.s1AmfId - {mmeId}, ueCtx := c.amf.ueCtx - {guti}), smf, upf))
  }

  /** The control tunnel id that the handover messages carry. */
  function TunnelOf(a: Tables, mmeId: nat): nat {
    Entry(a.ueCtx, GutiOf(a, mmeId)).teidUpf
  }

  /** The look-up with `operator[]` that every handover message starts with. */
  function Touched(a: Tables, mmeId: nat): Tables {
    var guti := GutiOf(a, mmeId);
    a.(ueCtx := a.ueCtx[guti := Entry(a.ueCtx, guti)])
  }

  function SetupTunnel(c: Core, mmeId: nat, dl: nat): (Core, nat) {
    var (upf, indirect) := Upf.SetupTunnel(c.upf, TunnelOf(c.amf, mmeId), dl);
    (c.(amf := Touched(c.amf, mmeId), upf := upf), indirect)
  }

  function CompleteHandover(c: Core, mmeId: nat): Core {
    c.(amf := Touched(c.amf, mmeId), upf := Upf.CompleteHandover(c.upf, TunnelOf(c.amf, mmeId)))
  }

  function TeardownTunnel(c: Core, mmeId: nat, indirect: nat): Core {
    c.(amf := Touched(c.amf, mmeId), upf := Upf.TeardownTunnel(c.upf, TunnelOf(c.amf, mmeId), indirect))
  }

  class Amf {
    var ueCount: nat
    var s1AmfId: map<nat, nat>
    var ueCtx: map<nat, UeContext>
    const smf: Smf.Smf
    const upf: Upf.Upf

    constructor (smf: Smf.Smf, upf: Upf.Upf)
      ensures ueCount == 0 && s1AmfId == map[] && ueCtx == map[] && this.smf == smf && this.upf == upf
    {
      ueCount, s1AmfId, ueCtx := 0, map[], map[];
      this.smf, this.upf := smf, upf;
    }

    function View(): Tables
      reads this
    {
      Tables(ueCount, s1AmfId, ueCtx)
    }

    function CoreView(): Core
      reads this, smf, upf
    {
      Core(View(), smf.ueCtx, upf.View())
    }

    method GetGuti(mmeId: nat) returns (guti: nat)
      ensures guti == GutiOf(View(), mmeId)
    {
      guti := 0;
      if mmeId in s1AmfId {
        guti := s1AmfId[mmeId];
      }
    }

    method HandleInitialAttach(imsi: nat, enbId: nat) returns (mmeId: nat)
      modifies this
      ensures (View(), mmeId) == InitialAttach(old(View()), imsi, enbId)
    {
      var guti := AmfGuti(imsi);
      ueCount := ueCount + 1;
      mmeId := ueCount % TWO32;
      s1AmfId := s1AmfId[mmeId := guti];
      ueCtx := ueCtx[guti := Entry(ueCtx, guti).(imsi := imsi, enbId := enbId, mmeId := mmeId)];
    }

    method HandleCreateSession(mmeId: nat) returns (ok: bool)
      modifies this, smf, upf
      ensures var r := CreateSession(old(CoreView()), mmeId);
              ok == r.Done? && (ok ==> CoreView() == r.core)
    {
      hide Smf.CreateSession, SlicedTeid;
      var guti := GetGuti(mmeId);
      if guti == 0 {
        return false;
      }
      ueCtx := ueCtx[guti := Entry(ueCtx, guti).(teidAmf := SlicedTeid(guti))];
      var reply;
      ok, reply := smf.HandleCreateSession(guti, ueCtx[guti].imsi, ueCtx[guti].teidAmf, upf);
      if !ok {
        return;
      }
      ueCtx := ueCtx[guti := ueCtx[guti].(ip := reply.ip, teidUpf := reply.teidUpf, teidUl := reply.teidUl)];
      assert ueCtx == old(ueCtx)[guti := ueCtx[guti]];
    }

    method HandleAttachComplete(mmeId: nat, dl: nat) returns (ok: bool)
      modifies this, smf, upf
      ensures var r := AttachComplete(old(CoreView()), mmeId, dl);
              ok == r.Done? && (ok ==> CoreView() == r.core)
    {
      var guti := GetGuti(mmeId);
      if guti == 0 {
        return false;
      }
      ueCtx := ueCtx[guti := Entry(ueCtx, guti).(teidDl := dl, emmState := 1)];
      ok := smf.HandleModifyBearer(guti, ueCtx[guti].teidDl, TRAFMON_IP, TRAFMON_PORT, upf);
      if ok {
        ueCtx := ueCtx[guti := ueCtx[guti].(ecmState := 1)];
        assert ueCtx == old(ueCtx)[guti := ueCtx[guti]];
      }
    }

    method HandleDetach(mmeId: nat, gutiInMessage: nat) returns (ok: bool)
      modifies this, smf, upf
      ensures var r := Detach(old(CoreView()), mmeId, gutiInMessage);
              ok == r.Done? && (ok ==> CoreView() == r.core)
    {
      var guti := GetGuti(mmeId);
      if guti == 0 {
        return false;
      }
      guti := gutiInMessage;
      ok := smf.HandleDetach(guti, upf);
      if ok {
        s1AmfId := s1AmfId - {mmeId};
        ueCtx := ueCtx - {guti};
      }
    }

    method HandleTunnelSetup(mmeId: nat, dl: nat) returns (indirect: nat)
      modifies this, upf
      ensures (CoreView(), indirect) == SetupTunnel(old(CoreView()), mmeId, dl)
    {
      var guti := GetGuti(mmeId);
      ueCtx := ueCtx[guti := Entry(ueCtx, guti)];
      indirect := upf.HandleTunnelSetup(ueCtx[guti].teidUpf, dl);
    }

    method HandleHandoverCompletion(mmeId: nat)
      modifies this, upf
      ensures CoreView() == CompleteHandover(old(CoreView()), mmeId)
    {
      var guti := GetGuti(mmeId);
      ueCtx := ueCtx[guti := Entry(ueCtx, guti)];
      upf.HandleHandoverCompletion(ueCtx[guti].teidUpf);
    }

    method HandleTunnelTeardown(mmeId: nat, indirect: nat)
      modifies this, upf
      ensures CoreView() == TeardownTunnel(old(CoreView()), mmeId, indirect)
    {
      var guti := GetGuti(mmeId);
      ueCtx := ueCtx[guti := Entry(ueCtx, guti)];
      upf.HandleTunnelTeardown(ueCtx[guti].teidUpf, indirect);
    }
  }
}
