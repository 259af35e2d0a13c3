/**
 * The session control plane as one transition system: RAN, AMF, SMF and UPF, with every handler
 * one atomic step and any number of UEs interleaved. A UE attaches only while detached and works
 * through attach, session, attach complete, any number of handovers, and detach.
 */
module ControlPlane {
  import opened Decimal
  import opened Telecom
  import opened IpPool
  import Upf
  import Smf
  import Amf

  datatype Phase = Registered | SessionUp | Attached | Tunnelled | Switched

  /**
   * The RAN's context of an attached UE. `target` is the downlink id a handover asks for and
   * `current` the one last set at the UPF.
   */
  datatype Ue = Ue(phase: Phase, mmeId: nat, guti: nat, teidUl: nat, indirect: nat, target: nat, current: nat)

  /** `ues` holds the UEs that are not detached, by number. */
  datatype State = State(core: Amf.Core, ues: map<nat, Ue>, exited: bool)

  datatype Step =
    | Attach(a: nat)
    | Create(a: nat)
    | Complete(a: nat)
    | Setup(a: nat, dl: nat)
    | Switch(a: nat)
    | Teardown(a: nat)
    | Detach(a: nat)

  const MAX_UE: nat := 1_000_000_000

  function Imsi(a: nat): nat {
    119_000_000_000 + a
  }

  function Guti(a: nat): nat {
    1_111_119_000_000_000 + a
  }

  ghost predicate InPhase(s: State, a: nat, p: Phase) {
    a in s.ues && s.ues[a].phase == p
  }

  ghost predicate Enabled(s: State, st: Step) {
    match st
    case Attach(a) => a !in s.ues && a < MAX_UE && s.core.amf.ueCount + 1 < TWO32
    case Create(a) => InPhase(s, a, Registered)
    case Complete(a) => InPhase(s, a, SessionUp)
    case Setup(a, _) => InPhase(s, a, Attached)
    case Switch(a) => InPhase(s, a, Tunnelled)
    case Teardown(a) => InPhase(s, a, Switched)
    case Detach(a) => InPhase(s, a, Attached)
  }

  ghost function Apply(s: State, st: Step): State
    requires Enabled(s, st)
  {
    match st
    case Attach(a) =>
      var (amf, id) := Amf.InitialAttach(s.core.amf, RanImsi(a), a);
      s.(core := s.core.(amf := amf), ues := s.ues[a := Ue(Registered, id, 0, 0, 0, 0, 0)])
    case Create(a) =>
      var ue := s.ues[a];
      (match Amf.CreateSession(s.core, ue.mmeId)
       case Exited => s.(exited := true)
       case Done(core) =>
         // The attach accept carries the GUTI and the uplink id.
         var guti := Amf.GutiOf(s.core.amf, ue.mmeId);
         var ul := Amf.Entry(core.amf.ueCtx, guti).teidUl;
         s.(core := core, ues := s.ues[a := ue.(phase := SessionUp, guti := guti, teidUl := ul)]))
    case Complete(a) =>
      // The RAN announces its uplink id as downlink id.
      var ue := s.ues[a];
      (match Amf.AttachComplete(s.core, ue.mmeId, ue.teidUl)
       case Exited => s.(exited := true)
       case Done(core) => s.(core := core, ues := s.ues[a := ue.(phase := Attached)]))
    case Setup(a, dl) =>
      var ue := s.ues[a];
      var (core, indirect) := Amf.SetupTunnel(s.core, ue.mmeId, dl);
      s.(core := core, ues := s.ues[a := ue.(phase := Tunnelled, indirect := indirect, target := dl)])
    case Switch(a) =>
      var ue := s.ues[a];
      s.(core := Amf.CompleteHandover(s.core, ue.mmeId), ues := s.ues[a := ue.(phase := Switched, current := ue.target)])
    case Teardown(a) =>
      var ue := s.ues[a];
      s.(core := Amf.TeardownTunnel(s.core, ue.mmeId, ue.indirect), ues := s.ues[a := ue.(phase := Attached)])
    case Detach(a) =>
      var ue := s.ues[a];
      (match Amf.Detach(s.core, ue.mmeId, ue.guti)
       case Exited => s.(exited := true)
       case Done(core) => s.(core := core, ues := s.ues - {a}))
  }

  // ---- What every reachable state satisfies -----------------------------------------------------------

  /** The UE has a created, undetached session. */
  ghost predicate Live(s: State, a: nat) {
    a in s.ues && s.ues[a].phase != Registered
  }

  /** What the AMF holds about an attached UE. */
  ghost predicate Known(s: State, a: nat) {
    var amf := s.core.amf;
    && a in s.ues && a < MAX_UE && 0 < s.ues[a].mmeId <= amf.ueCount
    && s.ues[a].mmeId in amf.s1AmfId && amf.s1AmfId[s.ues[a].mmeId] == Guti(a)
    && Guti(a) in amf.ueCtx && amf.ueCtx[Guti(a)].imsi == Imsi(a)
  }

  ghost predicate OwnsId(s: State, a: nat, id: nat) {
    a in s.ues && s.ues[a].mmeId == id
  }

  ghost predicate OwnsGuti(s: State, a: nat, guti: nat) {
    a in s.ues && guti == Guti(a)
  }

  /** The AMF knows exactly the attached UEs, under distinct non-zero ids. */
  ghost predicate AmfInv(s: State) {
    var amf := s.core.amf;
    && amf.ueCount < TWO32
    && (forall a :: a in s.ues ==> Known(s, a))
    && (forall id :: id in amf.s1AmfId ==> exists a :: OwnsId(s, a, id))
    && (forall g :: g in amf.ueCtx ==> exists a :: OwnsGuti(s, a, g))
  }

  /** AMF, SMF and UPF agree on the tunnel ids and the address of the UE's session. */
  ghost predicate Agree(s: State, a: nat) {
    var g, i := Guti(a), Imsi(a);
    && a in s.ues && s.ues[a].guti == g && s.ues[a].teidUl == a
    && g in s.core.amf.ueCtx && g in s.core.smf && i in s.core.upf.ueCtx && a in s.core.upf.s11Id
    && s.core.upf.s11Id[a] == i
    && var x, y, z := s.core.amf.ueCtx[g], s.core.smf[g], s.core.upf.ueCtx[i];
    && x.teidAmf == x.teidUpf == x.teidUl == a
    && y.imsi == i && y.teidMme == y.teidSgw == y.teidUl == a
    && z.teidSmf == z.teidUpf == z.teidUl == a
    && x.ip == y.ip == z.ip == Upf.AddressFor(s.core.upf, i)
  }

  ghost predicate OwnsImsi(s: State, a: nat, imsi: nat) {
    Live(s, a) && imsi == Imsi(a)
  }

  /** The UPF's control table and contexts belong exactly to the live sessions. */
  ghost predicate SessionInv(s: State) {
    && (forall a :: Live(s, a) ==> Agree(s, a))
    && (forall t :: t in s.core.upf.s11Id ==> Live(s, t))
    && (forall i :: i in s.core.upf.ueCtx ==> exists a :: OwnsImsi(s, a, i))
    && (forall g :: g in s.core.smf ==> s.core.smf[g].teidDl == 0)
  }

  /** `Imsi(a)` cut to 32 bits. */
  function HoKeyOf(a: nat): nat {
    3_035_883_008 + a
  }

  ghost predicate OwnsHoKey(s: State, a: nat, key: nat) {
    InPhase(s, a, Tunnelled) && key == HoKeyOf(a)
  }

  /** The UPF sends the UE's downlink to the endpoint last set; before attach complete there is none. */
  ghost predicate Endpoint(s: State, a: nat) {
    && Imsi(a) in s.core.upf.ueCtx && a in s.ues
    && var z := s.core.upf.ueCtx[Imsi(a)];
    if s.ues[a].phase == SessionUp then z.enbPort == 0
    else z.teidDl == s.ues[a].current && z.enbIp == Amf.TRAFMON_IP && z.enbPort == Amf.TRAFMON_PORT
  }

  /** What the UPF holds about a UE's downlink and handover. */
  ghost predicate Handing(s: State, a: nat) {
    && a in s.ues
    && (Live(s, a) ==> Endpoint(s, a))
    && (s.ues[a].phase == Registered ==> s.ues[a].current == 0)
    && match s.ues[a].phase
       case Tunnelled =>
         s.ues[a].indirect == a + 1
         && HoKeyOf(a) in s.core.upf.hoCtx && s.core.upf.hoCtx[HoKeyOf(a)].teidDl == s.ues[a].target
       case Switched =>
         s.ues[a].indirect == a + 1 && s.ues[a].current == s.ues[a].target
       case SessionUp => s.ues[a].current == 0
       case _ => true
  }

  /** A handover entry exists exactly between setup and completion, with the target's id. */
  ghost predicate HandoverInv(s: State) {
    && (forall a :: a in s.ues ==> Handing(s, a))
    && (forall k :: k in s.core.upf.hoCtx ==> exists a :: OwnsHoKey(s, a, k))
  }

  ghost predicate Inv(s: State) {
    !s.exited && AmfInv(s) && SessionInv(s) && HandoverInv(s)
  }

  // ---- A step concerns one UE ------------------------------------------------------------------------------

  /** In the context, control and handover tables no entry but that of UE `a` has changed. */
  ghost predicate SameContexts(s: State, s': State, a: nat) {
    && s'.ues - {a} == s.ues - {a}
    && s'.core.amf.ueCtx - {Guti(a)} == s.core.amf.ueCtx - {Guti(a)}
    && s'.core.smf - {Guti(a)} == s.core.smf - {Guti(a)}
    && s'.core.upf.s11Id - {a} == s.core.upf.s11Id - {a}
    && s'.core.upf.ueCtx - {Imsi(a)} == s.core.upf.ueCtx - {Imsi(a)}
    && s'.core.upf.hoCtx - {HoKeyOf(a)} == s.core.upf.hoCtx - {HoKeyOf(a)}
    && (forall i :: Upf.AddressFor(s'.core.upf, i) == Upf.AddressFor(s.core.upf, i))
  }

  /** The AMF ids of all other UEs are untouched, and `id` is free for `a`. */
  ghost predicate SameIds(s: State, s': State, a: nat, id: nat) {
    && s.core.amf.ueCount <= s'.core.amf.ueCount < TWO32
    && s'.core.amf.s1AmfId - {id} == s.core.amf.s1AmfId - {id}
    && (forall b :: b in s.ues && b != a ==> s.ues[b].mmeId != id)
    && (id in s'.core.amf.s1AmfId ==> OwnsId(s', a, id))
  }

  /** What the invariant says about the one UE `a`. */
  ghost predicate Local(s: State, a: nat) {
    && (a in s.ues ==> Known(s, a) && Handing(s, a))
    && (Live(s, a) ==> Agree(s, a))
    && (Guti(a) in s.core.amf.ueCtx ==> a in s.ues)
    && (a in s.core.upf.s11Id ==> Live(s, a))
    && (Imsi(a) in s.core.upf.ueCtx ==> Live(s, a))
    && (Guti(a) in s.core.smf ==> s.core.smf[Guti(a)].teidDl == 0)
    && (HoKeyOf(a) in s.core.upf.hoCtx ==> InPhase(s, a, Tunnelled))
  }

  /** Outside the removed key two maps that agree there agree. */
  lemma SameAt<K, V>(m: map<K, V>, m': map<K, V>, k: K, x: K)
    requires m' - {k} == m - {k} && x != k
    ensures x in m <==> x in m'
    ensures x in m ==> m'[x] == m[x]
  {
    assert x in m - {k} <==> x in m;
    assert x in m' - {k} <==> x in m';
    if x in m {
      assert (m - {k})[x] == m[x];
    }
  }

  /** Another UE is seen the same before and after. */
  lemma Elsewhere(s: State, s': State, a: nat, b: nat)
    requires SameContexts(s, s', a) && b != a
    ensures b in s.ues <==> b in s'.ues
    ensures b in s.ues ==> s'.ues[b] == s.ues[b]
    ensures Live(s, b) <==> Live(s', b)
    ensures Agree(s, b) ==> Agree(s', b)
    ensures Handing(s, b) ==> Handing(s', b)
    ensures forall p :: InPhase(s, b, p) <==> InPhase(s', b, p)
  {
    SameAt(s.ues, s'.ues, a, b);
    SameAt(s.core.amf.ueCtx, s'.core.amf.ueCtx, Guti(a), Guti(b));
    SameAt(s.core.smf, s'.core.smf, Guti(a), Guti(b));
    SameAt(s.core.upf.s11Id, s'.core.upf.s11Id, a, b);
    SameAt(s.core.upf.ueCtx, s'.core.upf.ueCtx, Imsi(a), Imsi(b));
    SameAt(s.core.upf.hoCtx, s'.core.upf.hoCtx, HoKeyOf(a), HoKeyOf(b));
    assert Upf.AddressFor(s'.core.upf, Imsi(b)) == Upf.AddressFor(s.core.upf, Imsi(b));
  }

  lemma FrameSession(s: State, s': State, a: nat)
    requires SessionInv(s) && SameContexts(s, s', a) && Local(s', a)
    ensures SessionInv(s')
  {
    hide Agree;
    forall b | Live(s', b) ensures Agree(s', b) {
      if b != a {
        Elsewhere(s, s', a, b);
      }
    }
    forall t | t in s'.core.upf.s11Id ensures Live(s', t) {
      if t != a {
        SameAt(s.core.upf.s11Id, s'.core.upf.s11Id, a, t);
        Elsewhere(s, s', a, t);
      }
    }
    forall i | i in s'.core.upf.ueCtx ensures exists b :: OwnsImsi(s', b, i) {
      if i == Imsi(a) {
        assert OwnsImsi(s', a, i);
      } else {
        SameAt(s.core.upf.ueCtx, s'.core.upf.ueCtx, Imsi(a), i);
        var b :| OwnsImsi(s, b, i);
        Elsewhere(s, s', a, b);
        assert OwnsImsi(s', b, i);
      }
    }
    forall g | g in s'.core.smf ensures s'.core.smf[g].teidDl == 0 {
      if g != Guti(a) {
        SameAt(s.core.smf, s'.core.smf, Guti(a), g);
      }
    }
  }

  lemma FrameHandover(s: State, s': State, a: nat)
    requires HandoverInv(s) && SameContexts(s, s', a) && Local(s', a)
    ensures HandoverInv(s')
  {
    hide Agree, Known;
    forall b | b in s'.ues ensures Handing(s', b) {
      if b != a {
        Elsewhere(s, s', a, b);
      }
    }
    forall k | k in s'.core.upf.hoCtx ensures exists b :: OwnsHoKey(s', b, k) {
      if k == HoKeyOf(a) {
        assert OwnsHoKey(s', a, k);
      } else {
        SameAt(s.core.upf.hoCtx, s'.core.upf.hoCtx, HoKeyOf(a), k);
        var b :| OwnsHoKey(s, b, k);
        Elsewhere(s, s', a, b);
        assert OwnsHoKey(s', b, k);
      }
    }
  }

  lemma FrameAmf(s: State, s': State, a: nat, id: nat)
    requires AmfInv(s) && SameContexts(s, s', a) && SameIds(s, s', a, id) && Local(s', a)
    requires a in s.ues ==> s.ues[a].mmeId == id
    ensures AmfInv(s')
  {
    hide Agree, Handing;
    forall b | b in s'.ues ensures Known(s', b) {
      if b != a {
        Elsewhere(s, s', a, b);
        assert Known(s, b);
        SameAt(s.core.amf.s1AmfId, s'.core.amf.s1AmfId, id, s.ues[b].mmeId);
        SameAt(s.core.amf.ueCtx, s'.core.amf.ueCtx, Guti(a), Guti(b));
      }
    }
    forall x | x in s'.core.amf.s1AmfId ensures exists b :: OwnsId(s', b, x) {
      if x == id {
        assert OwnsId(s', a, x);
      } else {
        SameAt(s.core.amf.s1AmfId, s'.core.amf.s1AmfId, id, x);
        var b :| OwnsId(s, b, x);
        if b != a {
          Elsewhere(s, s', a, b);
        }
        assert OwnsId(s', b, x);
      }
    }
    forall g | g in s'.core.amf.ueCtx ensures exists b :: OwnsGuti(s', b, g) {
      if g == Guti(a) {
        assert OwnsGuti(s', a, g);
      } else {
        SameAt(s.core.amf.ueCtx, s'.core.amf.ueCtx, Guti(a), g);
        var b :| OwnsGuti(s, b, g);
        Elsewhere(s, s', a, b);
        assert OwnsGuti(s', b, g);
      }
    }
  }

  lemma FrameInv(s: State, s': State, a: nat, id: nat)
    requires Inv(s) && SameContexts(s, s', a) && SameIds(s, s', a, id) && Local(s', a) && !s'.exited
    requires a in s.ues ==> s.ues[a].mmeId == id
    ensures Inv(s')
  {
    hide AmfInv, SessionInv, HandoverInv, Local, SameContexts, SameIds;
    FrameAmf(s, s', a, id);
    FrameSession(s, s', a);
    FrameHandover(s, s', a);
  }

  lemma OwnGuti(s: State, a: nat)
    requires AmfInv(s)
    ensures a in s.ues ==> Known(s, a)
    ensures Guti(a) in s.core.amf.ueCtx ==> a in s.ues
  {
    hide Known;
    if Guti(a) in s.core.amf.ueCtx {
      var b :| OwnsGuti(s, b, Guti(a));
    }
  }

  lemma OwnImsi(s: State, a: nat)
    requires SessionInv(s)
    ensures Imsi(a) in s.core.upf.ueCtx ==> Live(s, a)
    ensures Live(s, a) ==> Agree(s, a)
    ensures a in s.core.upf.s11Id ==> Live(s, a)
    ensures Guti(a) in s.core.smf ==> s.core.smf[Guti(a)].teidDl == 0
  {
    hide Agree;
    if Imsi(a) in s.core.upf.ueCtx {
      var b :| OwnsImsi(s, b, Imsi(a));
    }
  }

  lemma OwnHoKey(s: State, a: nat)
    requires HandoverInv(s)
    ensures a in s.ues ==> Handing(s, a)
    ensures HoKeyOf(a) in s.core.upf.hoCtx ==> InPhase(s, a, Tunnelled)
  {
    hide Handing;
    if HoKeyOf(a) in s.core.upf.hoCtx {
      var b :| OwnsHoKey(s, b, HoKeyOf(a));
    }
  }

  lemma OwnId(s: State, a: nat)
    requires AmfInv(s) && a in s.ues
    ensures forall b :: b in s.ues && b != a ==> s.ues[b].mmeId != s.ues[a].mmeId
  {
    forall b | b in s.ues && b != a ensures s.ues[b].mmeId != s.ues[a].mmeId {
      assert Known(s, a) && Known(s, b);
    }
  }

  /** The invariant seen from one UE: its own part, and an id nobody else has. */
  lemma OneUe(s: State, a: nat)
    requires Inv(s)
    ensures Local(s, a)
    ensures a in s.ues ==> forall b :: b in s.ues && b != a ==> s.ues[b].mmeId != s.ues[a].mmeId
    ensures s.core.amf.ueCount < TWO32
  {
    hide SessionInv, HandoverInv, Agree, Known, Handing;
    OwnGuti(s, a);
    OwnImsi(s, a);
    OwnHoKey(s, a);
    if a in s.ues {
      OwnId(s, a);
    }
  }

  // ---- The effect of each step ------------------------------------------------------------------------------

  lemma HoKeyValue(a: nat)
    requires a < MAX_UE
    ensures Upf.HoKey(Imsi(a)) == HoKeyOf(a)
  {
  }

  lemma Names(a: nat)
    requires a < MAX_UE
    ensures RanImsi(a) == Imsi(a) && AmfGuti(Imsi(a)) == Guti(a) && SlicedTeid(Guti(a)) == a
  {
    Identifiers(a);
  }

  lemma KeepsAttach(s: State, a: nat)
    requires Inv(s) && Enabled(s, Attach(a))
    ensures SameContexts(s, Apply(s, Attach(a)), a) && Inv(Apply(s, Attach(a)))
  {
    hide RanImsi, AmfGuti, SlicedTeid, AmfInv, SessionInv, HandoverInv;
    Names(a);
    OneUe(s, a);
    var s' := Apply(s, Attach(a));
    var id := s.core.amf.ueCount + 1;
    assert forall b :: b in s.ues ==> s.ues[b].mmeId != id by {
      IdsBelow(s);
    }
    FrameInv(s, s', a, id);
  }

  lemma IdsBelow(s: State)
    requires AmfInv(s)
    ensures forall b :: b in s.ues ==> s.ues[b].mmeId <= s.core.amf.ueCount
  {
    forall b | b in s.ues ensures s.ues[b].mmeId <= s.core.amf.ueCount {
      assert Known(s, b);
    }
  }

  /** The tables after create session, written out. */
  ghost function AfterCreate(s: State, a: nat): State
    requires a in s.ues && Guti(a) in s.core.amf.ueCtx
  {
    var g, i, u := Guti(a), Imsi(a), s.core.upf;
    var ip := Upf.AddressFor(u, i);
    var x := s.core.amf.ueCtx[g].(teidAmf := a, teidUpf := a, teidUl := a, ip := ip);
    var y := Smf.Entry(s.core.smf, g).(imsi := i, teidMme := a, teidSgw := a, teidUl := a, ip := ip);
    var z := Upf.Entry(u.ueCtx, i).(ip := ip, teidSmf := a, teidUpf := a, teidUl := a);
    State(Amf.Core(s.core.amf.(ueCtx := s.core.amf.ueCtx[g := x]), s.core.smf[g := y],
                   u.(ipAddrs := u.ipAddrs[i := ip], s11Id := u.s11Id[a := i], s1Id := u.s1Id[a := i],
                      sgiId := u.sgiId[ip := i], ueCtx := u.ueCtx[i := z])),
          s.ues[a := s.ues[a].(phase := SessionUp, guti := g, teidUl := a)], s.exited)
  }

  lemma CreateEffect(s: State, a: nat)
    requires Known(s, a) && Enabled(s, Create(a))
    ensures Apply(s, Create(a)) == AfterCreate(s, a)
  {
    hide SlicedTeid;
    Names(a);
  }

  lemma CreateElsewhere(s: State, a: nat)
    requires a in s.ues && Guti(a) in s.core.amf.ueCtx
    ensures SameContexts(s, AfterCreate(s, a), a)
  {
  }

  lemma CreateLocal(s: State, a: nat)
    requires Local(s, a) && InPhase(s, a, Registered)
    ensures Local(AfterCreate(s, a), a)
  {
  }

  lemma KeepsCreate(s: State, a: nat)
    requires Inv(s) && Enabled(s, Create(a))
    ensures SameContexts(s, Apply(s, Create(a)), a) && Inv(Apply(s, Create(a)))
  {
    hide Apply, AmfInv, SessionInv, HandoverInv, Agree, Handing, SameContexts;
    OneUe(s, a);
    CreateEffect(s, a);
    CreateElsewhere(s, a);
    CreateLocal(s, a);
    FrameInv(s, AfterCreate(s, a), a, s.ues[a].mmeId);
  }

  lemma KeepsComplete(s: State, a: nat)
    requires Inv(s) && Enabled(s, Complete(a))
    ensures SameContexts(s, Apply(s, Complete(a)), a) && Inv(Apply(s, Complete(a)))
  {
    hide AmfInv, SessionInv, HandoverInv;
    OneUe(s, a);
    FrameInv(s, Apply(s, Complete(a)), a, s.ues[a].mmeId);
  }

  lemma KeepsSetup(s: State, a: nat, dl: nat)
    requires Inv(s) && Enabled(s, Setup(a, dl))
    ensures SameContexts(s, Apply(s, Setup(a, dl)), a) && Inv(Apply(s, Setup(a, dl)))
  {
    hide AmfInv, SessionInv, HandoverInv;
    OneUe(s, a);
    HoKeyValue(a);
    FrameInv(s, Apply(s, Setup(a, dl)), a, s.ues[a].mmeId);
  }

  lemma KeepsSwitch(s: State, a: nat)
    requires Inv(s) && Enabled(s, Switch(a))
    ensures SameContexts(s, Apply(s, Switch(a)), a) && Inv(Apply(s, Switch(a)))
  {
    hide AmfInv, SessionInv, HandoverInv;
    OneUe(s, a);
    HoKeyValue(a);
    FrameInv(s, Apply(s, Switch(a)), a, s.ues[a].mmeId);
  }

  lemma KeepsTeardown(s: State, a: nat)
    requires Inv(s) && Enabled(s, Teardown(a))
    ensures SameContexts(s, Apply(s, Teardown(a)), a) && Inv(Apply(s, Teardown(a)))
  {
    hide AmfInv, SessionInv, HandoverInv;
    OneUe(s, a);
    FrameInv(s, Apply(s, Teardown(a)), a, s.ues[a].mmeId);
  }

  lemma KeepsDetach(s: State, a: nat)
    requires Inv(s) && Enabled(s, Detach(a))
    ensures SameContexts(s, Apply(s, Detach(a)), a) && Inv(Apply(s, Detach(a)))
  {
    hide AmfInv, SessionInv, HandoverInv;
    OneUe(s, a);
    FrameInv(s, Apply(s, Detach(a)), a, s.ues[a].mmeId);
  }

  // ---- Whole runs ------------------------------------------------------------------------------------------

  lemma StepInv(s: State, st: Step)
    requires Inv(s) && Enabled(s, st)
    ensures Inv(Apply(s, st)) && SameContexts(s, Apply(s, st), st.a)
  {
    hide Inv, Apply, SameContexts;
    match st
    case Attach(a) => KeepsAttach(s, a);
    case Create(a) => KeepsCreate(s, a);
    case Complete(a) => KeepsComplete(s, a);
    case Setup(a, dl) => KeepsSetup(s, a, dl);
    case Switch(a) => KeepsSwitch(s, a);
    case Teardown(a) => KeepsTeardown(s, a);
    case Detach(a) => KeepsDetach(s, a);
  }

  ghost predicate Reaches(s: State, steps: seq<Step>, s': State)
    decreases |steps|
  {
    if steps == [] then s' == s
    else Enabled(s, steps[0]) && Reaches(Apply(s, steps[0]), steps[1..], s')
  }

  /** All tables empty but the address pool. */
  ghost function Start(ipAddrs: map<nat, Bytes>): State {
    State(Amf.Core(Amf.Tables(0, map[], map[]), map[],
                   Upf.Tables(map[], map[], map[], map[], map[], ipAddrs)), map[], false)
  }

  lemma {:induction false} RunKeeps(s: State, steps: seq<Step>, s': State)
    requires Inv(s) && Reaches(s, steps, s')
    ensures Inv(s')
    decreases |steps|
  {
    hide Inv, Apply, Enabled;
    if steps != [] {
      StepInv(s, steps[0]);
      RunKeeps(Apply(s, steps[0]), steps[1..], s');
    }
  }

  /**
   * In every run of any number of UEs below 10^9 and fewer than 2^32 attaches: no handler takes an
   * error exit, every live session is agreed on by AMF, SMF and UPF, the UPF's control table holds
   * nothing else, and AMF ids are non-zero and unique.
   */
  lemma EveryRun(ipAddrs: map<nat, Bytes>, steps: seq<Step>, s: State)
    requires Reaches(Start(ipAddrs), steps, s)
    ensures !s.exited
    ensures forall a :: Live(s, a) ==> Agree(s, a)
    ensures forall t :: t in s.core.upf.s11Id <==> Live(s, t)
    ensures forall i :: i in s.core.upf.ueCtx <==> exists a :: OwnsImsi(s, a, i)
    ensures forall a :: a in s.ues ==> 0 < s.ues[a].mmeId < TWO32
    ensures forall a, b :: a in s.ues && b in s.ues && a != b ==> s.ues[a].mmeId != s.ues[b].mmeId
  {
    RunKeeps(Start(ipAddrs), steps, s);
    forall t | Live(s, t) ensures t in s.core.upf.s11Id && Imsi(t) in s.core.upf.ueCtx {
      assert Agree(s, t);
    }
    forall a | a in s.ues ensures 0 < s.ues[a].mmeId < TWO32 {
      assert Known(s, a);
    }
    forall a, b | a in s.ues && b in s.ues && a != b ensures s.ues[a].mmeId != s.ues[b].mmeId {
      OwnId(s, a);
    }
  }

  /** Every run ends in a state where a UE's own part of the invariant holds. */
  lemma RunLocal(ipAddrs: map<nat, Bytes>, steps: seq<Step>, s: State, a: nat)
    requires Reaches(Start(ipAddrs), steps, s)
    ensures Inv(s) && Local(s, a)
  {
    hide Local;
    RunKeeps(Start(ipAddrs), steps, s);
    hide AmfInv, SessionInv, HandoverInv;
    OneUe(s, a);
  }

  lemma CompleteDownlink(s: State, a: nat)
    requires Local(s, a) && Enabled(s, Complete(a))
    ensures s.ues[a].teidUl == a
    ensures var u := Apply(s, Complete(a)).core.upf;
            && Imsi(a) in u.ueCtx && u.ueCtx[Imsi(a)].teidDl == 0 && u.ueCtx[Imsi(a)].enbPort == Amf.TRAFMON_PORT
  {
  }

  /**
   * The downlink id the RAN announces does not arrive: after attach complete the UPF holds the
   * SMF's own field, which is always 0, so it equals the announced id only for UE number 0.
   */
  lemma AnnouncedDownlinkIsLost(ipAddrs: map<nat, Bytes>, steps: seq<Step>, s: State, a: nat)
    requires Reaches(Start(ipAddrs), steps, s) && Enabled(s, Complete(a))
    ensures var s' := Apply(s, Complete(a));
            && Imsi(a) in s'.core.upf.ueCtx
            && s'.core.upf.ueCtx[Imsi(a)].teidDl == 0
            && s'.core.upf.ueCtx[Imsi(a)].enbPort == Amf.TRAFMON_PORT
            && (s'.core.upf.ueCtx[Imsi(a)].teidDl == s.ues[a].teidUl <==> a == 0)
  {
    hide Reaches, Start, Inv, Apply, Local;
    RunLocal(ipAddrs, steps, s, a);
    CompleteDownlink(s, a);
  }

  /** After a handover has been switched the UPF sends to the target. */
  lemma SwitchedDownlink(ipAddrs: map<nat, Bytes>, steps: seq<Step>, s: State, a: nat)
    requires Reaches(Start(ipAddrs), steps, s) && InPhase(s, a, Switched)
    ensures Imsi(a) in s.core.upf.ueCtx && s.core.upf.ueCtx[Imsi(a)].teidDl == s.ues[a].target
    ensures Upf.HoKey(Imsi(a)) !in s.core.upf.hoCtx
  {
    hide Reaches, Start, Inv, Local;
    RunLocal(ipAddrs, steps, s, a);
    SwitchedLocal(s, a);
  }

  lemma SwitchedLocal(s: State, a: nat)
    requires Local(s, a) && InPhase(s, a, Switched)
    ensures Imsi(a) in s.core.upf.ueCtx && s.core.upf.ueCtx[Imsi(a)].teidDl == s.ues[a].target
    ensures Upf.HoKey(Imsi(a)) !in s.core.upf.hoCtx
  {
    HoKeyValue(a);
  }

  // ---- One step, seen from outside ------------------------------------------------------------------------------------

  ghost predicate InHandover(s: State, a: nat) {
    InPhase(s, a, Tunnelled) || InPhase(s, a, Switched)
  }

  /** How the acting UE's phase moves. */
  lemma PhaseEffect(s: State, st: Step)
    requires Enabled(s, st) && !Apply(s, st).exited
    ensures var s', a := Apply(s, st), st.a;
            && (Live(s', a) <==> st.Create? || (Live(s, a) && !st.Detach?))
            && (InHandover(s', a) <==> st.Setup? || (InHandover(s, a) && !st.Teardown?))
  {
    hide Amf.InitialAttach, Amf.CreateSession, Amf.AttachComplete, Amf.SetupTunnel, Amf.CompleteHandover,
      Amf.TeardownTunnel, Amf.Detach, RanImsi;
  }

  /** A step in one place: it keeps the invariant, and all other UEs see the same. */
  lemma StepView(s: State, st: Step)
    requires Inv(s) && Enabled(s, st)
    ensures !Apply(s, st).exited && SameContexts(s, Apply(s, st), st.a)
  {
    hide Apply, SameContexts, AmfInv, SessionInv, HandoverInv;
    StepInv(s, st);
  }

  // ---- Every life cycle can be completed ---------------------------------------------------------------------------

  /** Attach, session, one handover to the downlink id `dl`, detach. */
  function Cycle(a: nat, dl: nat): seq<Step> {
    [Attach(a)] + ([Create(a)] + ([Complete(a)] + ([Setup(a, dl)] + ([Switch(a)] + ([Teardown(a)] + [Detach(a)])))))
  }

  lemma ReachesFirst(s: State, st: Step, rest: seq<Step>, s': State)
    requires Enabled(s, st) && Reaches(Apply(s, st), rest, s')
    ensures Reaches(s, [st] + rest, s')
  {
    hide Apply, Enabled;
    assert ([st] + rest)[1..] == rest;
  }

  /** The phase that a step other than detach leads to. */
  function Next(st: Step): Phase {
    match st
    case Attach(_) => Registered
    case Create(_) => SessionUp
    case Complete(_) => Attached
    case Setup(_, _) => Tunnelled
    case Switch(_) => Switched
    case _ => Attached
  }

  lemma PhaseAfter(s: State, st: Step)
    requires Enabled(s, st) && !Apply(s, st).exited
    ensures Apply(s, st).ues - {st.a} == s.ues - {st.a}
    ensures if st.Detach? then st.a !in Apply(s, st).ues else InPhase(Apply(s, st), st.a, Next(st))
  {
    hide Amf.InitialAttach, Amf.CreateSession, Amf.AttachComplete, Amf.SetupTunnel, Amf.CompleteHandover,
      Amf.TeardownTunnel, Amf.Detach, RanImsi;
  }

  lemma TakeStep(s: State, st: Step) returns (s': State)
    requires Inv(s) && Enabled(s, st)
    ensures s' == Apply(s, st) && Inv(s') && s'.ues - {st.a} == s.ues - {st.a}
    ensures if st.Detach? then st.a !in s'.ues else InPhase(s', st.a, Next(st))
    ensures s'.core.amf.ueCount == s.core.amf.ueCount + if st.Attach? then 1 else 0
  {
    hide Inv, Apply, Enabled, SameContexts;
    s' := Apply(s, st);
    StepInv(s, st);
    StepView(s, st);
    PhaseAfter(s, st);
    CountAfter(s, st);
  }

  lemma CountAfter(s: State, st: Step)
    requires Enabled(s, st)
    ensures Apply(s, st).core.amf.ueCount == s.core.amf.ueCount + if st.Attach? then 1 else 0
  {
    hide Smf.CreateSession, Smf.ModifyBearer, Smf.Detach, Upf.SetupTunnel, Upf.CompleteHandover, Upf.TeardownTunnel,
      RanImsi, AmfGuti, SlicedTeid;
  }

  /**
   * Whatever the other UEs are doing, a detached UE can go through its whole life cycle, and the
   * attached UEs are then the same as before.
   */
  lemma CycleCompletes(s: State, a: nat, dl: nat) returns (s': State)
    requires Inv(s) && Enabled(s, Attach(a))
    ensures Reaches(s, Cycle(a, dl), s') && Inv(s') && s'.ues == s.ues
  {
    hide Inv, Apply, Reaches;
    var s1 := TakeStep(s, Attach(a));
    var s2 := TakeStep(s1, Create(a));
    var s3 := TakeStep(s2, Complete(a));
    var s4 := TakeStep(s3, Setup(a, dl));
    var s5 := TakeStep(s4, Switch(a));
    var s6 := TakeStep(s5, Teardown(a));
    s' := TakeStep(s6, Detach(a));
    ReachesOnly(s6, Detach(a));
    ReachesFirst(s5, Teardown(a), [Detach(a)], s');
    ReachesFirst(s4, Switch(a), [Teardown(a)] + [Detach(a)], s');
    ReachesFirst(s3, Setup(a, dl), [Switch(a)] + ([Teardown(a)] + [Detach(a)]), s');
    var rest := [Setup(a, dl)] + ([Switch(a)] + ([Teardown(a)] + [Detach(a)]));
    ReachesFirst(s2, Complete(a), rest, s');
    ReachesFirst(s1, Create(a), [Complete(a)] + rest, s');
    ReachesFirst(s, Attach(a), [Create(a)] + ([Complete(a)] + rest), s');
    SameWithout(s.ues, s'.ues, a);
  }

  lemma ReachesOnly(s: State, st: Step)
    requires Enabled(s, st)
    ensures Reaches(s, [st], Apply(s, st))
  {
    hide Apply, Enabled;
    assert [st][1..] == [];
  }

  lemma SameWithout(m: map<nat, Ue>, m': map<nat, Ue>, a: nat)
    requires a !in m && a !in m' && m - {a} == m' - {a}
    ensures m == m'
  {
    assert m - {a} == m && m' - {a} == m';
  }
}
