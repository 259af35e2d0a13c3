/**
 * The tables that several UEs can touch: the AMF's ids, the UPF's uplink and address tables, over
 * single steps and whole runs of the control plane.
 */
module SessionTables {
  import opened Decimal
  import opened Characters
  import opened IpPool
  import opened ControlPlane
  import Upf
  import Smf
  import Amf

  // ---- What a step does to the tables --------------------------------------------------------------------------

  /** The address that the UPF gives to UE number `a`. */
  ghost function AddressOf(s: State, a: nat): Bytes {
    Upf.AddressFor(s.core.upf, Imsi(a))
  }

  ghost function NextUplink(s: State, st: Step): map<nat, nat> {
    var m := s.core.upf.s1Id;
    match st
    case Create(a) => m[a := Imsi(a)]
    case Setup(a, _) => m[a + 1 := Imsi(a)]
    case Teardown(a) => m - {a + 1}
    case Detach(a) => m - {a}
    case _ => m
  }

  ghost function NextAddresses(s: State, st: Step): map<Bytes, nat> {
    var m := s.core.upf.sgiId;
    match st
    case Create(a) => m[AddressOf(s, a) := Imsi(a)]
    case Detach(a) => m - {AddressOf(s, a)}
    case _ => m
  }

  lemma UplinkHandover(s: State, st: Step)
    requires Local(s, st.a) && Enabled(s, st) && (st.Setup? || st.Switch? || st.Teardown?)
    ensures Apply(s, st).core.upf.s1Id == NextUplink(s, st)
  {
    hide Telecom.RanImsi, Telecom.AmfGuti, Amf.CreateSession, Amf.AttachComplete, Amf.Detach;
  }

  lemma UplinkSession(s: State, st: Step)
    requires Local(s, st.a) && Enabled(s, st) && (st.Attach? || st.Complete? || st.Detach?)
    ensures Apply(s, st).core.upf.s1Id == NextUplink(s, st)
  {
    hide Telecom.RanImsi, Telecom.AmfGuti, Amf.CreateSession, Amf.SetupTunnel, Amf.CompleteHandover, Amf.TeardownTunnel;
  }

  lemma UplinkOther(s: State, st: Step)
    requires Local(s, st.a) && Enabled(s, st) && !st.Create?
    ensures Apply(s, st).core.upf.s1Id == NextUplink(s, st)
  {
    hide Local, Apply, NextUplink;
    if st.Setup? || st.Switch? || st.Teardown? {
      UplinkHandover(s, st);
    } else {
      UplinkSession(s, st);
    }
  }

  lemma AddressOther(s: State, st: Step)
    requires Local(s, st.a) && Enabled(s, st) && !st.Create?
    ensures Apply(s, st).core.upf.sgiId == NextAddresses(s, st)
  {
    hide Telecom.RanImsi, Telecom.AmfGuti;
  }

  lemma TableEffect(s: State, st: Step)
    requires Inv(s) && Enabled(s, st)
    ensures Apply(s, st).core.upf.s1Id == NextUplink(s, st)
    ensures Apply(s, st).core.upf.sgiId == NextAddresses(s, st)
  {
    hide Apply, AmfInv, SessionInv, HandoverInv, Agree, Handing;
    OneUe(s, st.a);
    if st.Create? {
      CreateEffect(s, st.a);
    } else {
      UplinkOther(s, st);
      AddressOther(s, st);
    }
  }

  /** The AMF id of the acting UE: the one it has, or the one it gets. */
  ghost function IdOf(s: State, s': State, a: nat): nat {
    if a in s.ues then s.ues[a].mmeId else if a in s'.ues then s'.ues[a].mmeId else 0
  }

  /** Every entry of the AMF's id table is that of an attached UE, and says its GUTI. */
  lemma IdEntry(s: State, s': State, a: nat, x: nat)
    requires AmfInv(s) && AmfInv(s') && SameContexts(s, s', a) && x in s.core.amf.s1AmfId
    requires a in s.ues ==> s.ues[a].mmeId != x
    ensures x in s'.core.amf.s1AmfId && s'.core.amf.s1AmfId[x] == s.core.amf.s1AmfId[x]
  {
    hide SameContexts;
    var b :| OwnsId(s, b, x);
    Elsewhere(s, s', a, b);
    assert Known(s, b) && Known(s', b);
  }

  lemma SameContextsBack(s: State, s': State, a: nat)
    requires SameContexts(s, s', a)
    ensures SameContexts(s', s, a)
  {
  }

  lemma IdsElsewhere(s: State, s': State, a: nat)
    requires AmfInv(s) && AmfInv(s') && SameContexts(s, s', a)
    requires a in s.ues && a in s'.ues ==> s'.ues[a].mmeId == s.ues[a].mmeId
    ensures var id := IdOf(s, s', a); s'.core.amf.s1AmfId - {id} == s.core.amf.s1AmfId - {id}
  {
    hide AmfInv, SameContexts;
    SameContextsBack(s, s', a);
    var id := IdOf(s, s', a);
    var m, m' := s.core.amf.s1AmfId, s'.core.amf.s1AmfId;
    forall x | x in m && x != id ensures x in m' && m'[x] == m[x] {
      IdEntry(s, s', a, x);
    }
    forall x | x in m' && x != id ensures x in m {
      IdEntry(s', s, a, x);
    }
  }

  // ---- One step disturbs nobody else ------------------------------------------------------------------------------

  /**
   * Nothing has changed in any table but the entries of UE `a`: its contexts, its AMF id, its
   * address, and in the uplink table its own id and the one after it.
   */
  ghost predicate SameElsewhere(s: State, s': State, a: nat) {
    && SameContexts(s, s', a)
    && (var id := IdOf(s, s', a); s'.core.amf.s1AmfId - {id} == s.core.amf.s1AmfId - {id})
    && s'.core.upf.sgiId - {AddressOf(s, a)} == s.core.upf.sgiId - {AddressOf(s, a)}
    && s'.core.upf.s1Id - {a, a + 1} == s.core.upf.s1Id - {a, a + 1}
  }

  /** Every handler step keeps the invariant and changes no table outside the acting UE's keys. */
  lemma StepKeeps(s: State, st: Step)
    requires Inv(s) && Enabled(s, st)
    ensures Inv(Apply(s, st)) && SameElsewhere(s, Apply(s, st), st.a)
  {
    hide Apply, SameContexts, AmfInv, SessionInv, HandoverInv, AddressOf;
    StepInv(s, st);
    TableEffect(s, st);
    StepView(s, st);
    if st.a in s.ues && st.a in Apply(s, st).ues {
      IdKept(s, st);
    }
    IdsElsewhere(s, Apply(s, st), st.a);
  }

  lemma IdKept(s: State, st: Step)
    requires Enabled(s, st) && !Apply(s, st).exited && st.a in s.ues && st.a in Apply(s, st).ues
    ensures Apply(s, st).ues[st.a].mmeId == s.ues[st.a].mmeId
  {
    hide Amf.InitialAttach, Amf.CreateSession, Amf.AttachComplete, Amf.SetupTunnel, Amf.CompleteHandover,
      Amf.TeardownTunnel, Amf.Detach, Telecom.RanImsi;
  }

  ghost predicate HasUplink(s: State, b: nat) {
    b in s.core.upf.s1Id && s.core.upf.s1Id[b] == Imsi(b)
  }

  ghost predicate HasAddress(s: State, b: nat) {
    AddressOf(s, b) in s.core.upf.sgiId && s.core.upf.sgiId[AddressOf(s, b)] == Imsi(b)
  }

  /**
   * What a step of one UE does to the shared tables of another live UE `b`: `b` keeps its uplink
   * entry unless the step sets up or tears down the indirect tunnel of the UE numbered just before
   * it, and keeps its address entry unless the step creates or ends a session with the same address.
   */
  lemma Undisturbed(s: State, st: Step, b: nat)
    requires Inv(s) && Enabled(s, st) && Live(s, b) && b != st.a
    ensures Live(Apply(s, st), b)
    ensures HasUplink(s, b) ==>
              (HasUplink(Apply(s, st), b) <==> !((st.Setup? || st.Teardown?) && b == st.a + 1))
    ensures HasAddress(s, b) ==>
              (HasAddress(Apply(s, st), b) <==> !((st.Create? || st.Detach?) && AddressOf(s, b) == AddressOf(s, st.a)))
  {
    hide Inv, Apply;
    StepView(s, st);
    TableEffect(s, st);
    SameAddresses(s, Apply(s, st), st.a, b);
    hide SameContexts, AddressOf;
    Elsewhere(s, Apply(s, st), st.a, b);
  }

  lemma SameAddresses(s: State, s': State, a: nat, b: nat)
    requires SameContexts(s, s', a)
    ensures AddressOf(s', b) == AddressOf(s, b)
  {
  }

  // ---- The uplink table over whole runs -----------------------------------------------------------------------------

  /** A UE owns its own id, and the next one while its indirect tunnel stands. */
  ghost predicate OwnsUplink(s: State, a: nat, t: nat) {
    (Live(s, a) && t == a) || (InHandover(s, a) && t == a + 1)
  }

  /** Every uplink entry has an owner. */
  ghost predicate UplinkOwned(s: State) {
    forall t :: t in s.core.upf.s1Id ==> exists a :: OwnsUplink(s, a, t)
  }

  /** The uplink table holds exactly what the UEs own, each entry with its owner's IMSI. */
  ghost predicate UplinkInv(s: State) {
    && UplinkOwned(s)
    && (forall a, t :: OwnsUplink(s, a, t) ==> t in s.core.upf.s1Id && s.core.upf.s1Id[t] == Imsi(a))
  }

  /** No UE in handover has a neighbour with a session. */
  ghost predicate Isolated(s: State) {
    forall a: nat :: InHandover(s, a) ==> !Live(s, a + 1)
  }

  lemma OwnerElsewhere(s: State, s': State, a: nat, b: nat, t: nat)
    requires SameContexts(s, s', a) && b != a
    ensures OwnsUplink(s, b, t) <==> OwnsUplink(s', b, t)
  {
    hide SameContexts;
    Elsewhere(s, s', a, b);
  }

  /** The entries of every owner after the step. */
  lemma UplinkOwners(s: State, st: Step, s': State, b: nat, t: nat)
    requires Inv(s) && Enabled(s, st) && s' == Apply(s, st) && UplinkInv(s)
    requires Isolated(s) && Isolated(s') && OwnsUplink(s', b, t)
    ensures t in s'.core.upf.s1Id && s'.core.upf.s1Id[t] == Imsi(b)
  {
    hide Inv, Apply, SameContexts, NextAddresses;
    StepView(s, st);
    TableEffect(s, st);
    PhaseEffect(s, st);
    var a := st.a;
    if b != a {
      OwnerElsewhere(s, s', a, b, t);
      OwnerElsewhere(s, s', a, b, b);
      Elsewhere(s, s', a, b);
    }
    if !(st.Create? && b == a && t == a) && !(st.Setup? && b == a && t == a + 1) {
      assert OwnsUplink(s, b, t);
    }
  }

  lemma UplinkOnlyOwners(s: State, st: Step, s': State, t: nat) returns (b: nat)
    requires Inv(s) && Enabled(s, st) && s' == Apply(s, st) && UplinkOwned(s) && t in s'.core.upf.s1Id
    ensures OwnsUplink(s', b, t)
  {
    hide Inv, Apply, SameContexts, NextAddresses;
    StepView(s, st);
    TableEffect(s, st);
    PhaseEffect(s, st);
    var a := st.a;
    if (st.Create? && t == a) || (st.Setup? && t == a + 1) {
      b := a;
    } else {
      b :| OwnsUplink(s, b, t);
      if b != a {
        OwnerElsewhere(s, s', a, b, t);
      }
    }
  }

  lemma UplinkOwnedStep(s: State, st: Step)
    requires Inv(s) && Enabled(s, st) && UplinkOwned(s)
    ensures UplinkOwned(Apply(s, st))
  {
    hide Inv, Apply, Enabled, OwnsUplink;
    var s' := Apply(s, st);
    forall t | t in s'.core.upf.s1Id ensures exists b :: OwnsUplink(s', b, t) {
      var b := UplinkOnlyOwners(s, st, s', t);
    }
  }

  lemma UplinkStep(s: State, st: Step)
    requires Inv(s) && Enabled(s, st) && UplinkInv(s) && Isolated(s) && Isolated(Apply(s, st))
    ensures UplinkInv(Apply(s, st))
  {
    hide Inv, Apply, Enabled, Isolated, OwnsUplink, UplinkOwned;
    var s' := Apply(s, st);
    UplinkOwnedStep(s, st);
    forall b, t | OwnsUplink(s', b, t) ensures t in s'.core.upf.s1Id && s'.core.upf.s1Id[t] == Imsi(b) {
      UplinkOwners(s, st, s', b, t);
    }
  }

  /** All states of a run, the first included. */
  ghost function States(s: State, steps: seq<Step>): seq<State>
    decreases |steps|
  {
    [s] + if steps == [] || !Enabled(s, steps[0]) then [] else States(Apply(s, steps[0]), steps[1..])
  }

  lemma LaterStates(s: State, steps: seq<Step>)
    ensures s in States(s, steps)
    ensures steps != [] && Enabled(s, steps[0]) ==>
              forall x :: x in States(Apply(s, steps[0]), steps[1..]) ==> x in States(s, steps)
    ensures forall x :: x in States(s, steps) ==>
              x == s || (steps != [] && Enabled(s, steps[0]) && x in States(Apply(s, steps[0]), steps[1..]))
  {
    hide Apply, Enabled;
  }

  lemma {:induction false} UplinkRun(s: State, steps: seq<Step>)
    requires Inv(s) && UplinkInv(s) && forall x :: x in States(s, steps) ==> Isolated(x)
    ensures forall x :: x in States(s, steps) ==> UplinkInv(x)
    decreases |steps|
  {
    hide Inv, Apply, Enabled, Isolated, UplinkInv, States;
    LaterStates(s, steps);
    if steps != [] && Enabled(s, steps[0]) {
      var s' := Apply(s, steps[0]);
      LaterStates(s', steps[1..]);
      StepInv(s, steps[0]);
      UplinkStep(s, steps[0]);
      UplinkRun(s', steps[1..]);
    }
  }

  /** A UE in handover and a live neighbour would both own the same entry. */
  lemma ExactIsIsolated(s: State)
    requires UplinkInv(s)
    ensures Isolated(s)
  {
    forall a: nat | InHandover(s, a) ensures !Live(s, a + 1) {
      assert OwnsUplink(s, a, a + 1);
      if Live(s, a + 1) {
        assert OwnsUplink(s, a + 1, a + 1);
      }
    }
  }

  /**
   * In every run the uplink table holds exactly the live sessions' ids and the standing indirect
   * tunnels, each with its UE's IMSI, in all states if and only if in all states no UE is in handover
   * while the UE numbered next has a session.
   */
  lemma UplinkExact(ipAddrs: map<nat, Bytes>, steps: seq<Step>)
    ensures (forall x :: x in States(Start(ipAddrs), steps) ==> UplinkInv(x)) <==>
            (forall x :: x in States(Start(ipAddrs), steps) ==> Isolated(x))
  {
    var s0 := Start(ipAddrs);
    StartInv(ipAddrs);
    assert UplinkInv(s0);
    hide Inv, UplinkInv, Isolated, States, Start;
    if forall x :: x in States(s0, steps) ==> Isolated(x) {
      UplinkRun(s0, steps);
    }
    if forall x :: x in States(s0, steps) ==> UplinkInv(x) {
      forall x | x in States(s0, steps) ensures Isolated(x) {
        ExactIsIsolated(x);
      }
    }
  }

  /** UE `a + 1` gets a session, then UE `a` attaches. */
  function TwoSessions(a: nat): seq<Step> {
    [Attach(a + 1)] + ([Create(a + 1)] + ([Attach(a)] + ([Create(a)] + [Complete(a)])))
  }

  function HandoverOf(a: nat, dl: nat): seq<Step> {
    [Setup(a, dl)] + ([Switch(a)] + [Teardown(a)])
  }

  /** A handover next to a live UE, from any state of any run, leaves that UE without an uplink entry. */
  lemma HandoverNextToUe(s: State, a: nat, dl: nat) returns (s': State)
    requires Inv(s) && InPhase(s, a, Attached) && Live(s, a + 1)
    ensures Reaches(s, HandoverOf(a, dl), s')
    ensures Live(s', a + 1) && a + 1 !in s'.core.upf.s1Id
  {
    hide Inv, Apply, Reaches;
    var s1 := TakeStep(s, Setup(a, dl));
    var s2 := TakeStep(s1, Switch(a));
    s' := TakeStep(s2, Teardown(a));
    ReachesOnly(s2, Teardown(a));
    ReachesFirst(s1, Switch(a), [Teardown(a)], s');
    ReachesFirst(s, Setup(a, dl), [Switch(a)] + [Teardown(a)], s');
    TableEffect(s2, Teardown(a));
    SameAt(s.ues, s'.ues, a, a + 1);
  }

  lemma StartInv(ipAddrs: map<nat, Bytes>)
    ensures var s := Start(ipAddrs); Inv(s) && s.ues == map[] && s.core.amf.ueCount == 0
  {
  }

  lemma TwoSessionsReached(ipAddrs: map<nat, Bytes>, a: nat) returns (s: State)
    requires a + 1 < MAX_UE
    ensures Reaches(Start(ipAddrs), TwoSessions(a), s) && Inv(s) && InPhase(s, a, Attached) && Live(s, a + 1)
  {
    hide Inv, Apply, Reaches, Start;
    StartInv(ipAddrs);
    var b := a + 1;
    var s0 := Start(ipAddrs);
    var s1 := TakeStep(s0, Attach(b));
    var s2 := TakeStep(s1, Create(b));
    SameAt(s0.ues, s2.ues, b, a);
    var s3 := TakeStep(s2, Attach(a));
    var s4 := TakeStep(s3, Create(a));
    s := TakeStep(s4, Complete(a));
    SameAt(s2.ues, s.ues, a, b);
    ReachesOnly(s4, Complete(a));
    ReachesFirst(s3, Create(a), [Complete(a)], s);
    var rest := [Create(a)] + [Complete(a)];
    ReachesFirst(s2, Attach(a), rest, s);
    ReachesFirst(s1, Create(b), [Attach(a)] + rest, s);
    ReachesFirst(s0, Attach(b), [Create(b)] + ([Attach(a)] + rest), s);
  }

  lemma {:induction false} ReachesThrough(s: State, first: seq<Step>, s1: State, rest: seq<Step>, s': State)
    requires Reaches(s, first, s1) && Reaches(s1, rest, s')
    ensures Reaches(s, first + rest, s')
    decreases |first|
  {
    hide Enabled, Apply;
    if first == [] {
      assert first + rest == rest;
    } else {
      ReachesThrough(Apply(s, first[0]), first[1..], s1, rest, s');
      assert (first + rest)[1..] == first[1..] + rest;
    }
  }

  /**
   * Every pair of neighbours has a run in which the second, with its session up and no step of its
   * own, is left without an uplink entry.
   */
  lemma NeighbourLosesUplink(ipAddrs: map<nat, Bytes>, a: nat, dl: nat) returns (s: State)
    requires a + 1 < MAX_UE
    ensures Reaches(Start(ipAddrs), TwoSessions(a) + HandoverOf(a, dl), s)
    ensures Live(s, a + 1) && a + 1 !in s.core.upf.s1Id
  {
    hide Inv, Reaches, Start, TwoSessions, HandoverOf;
    var s1 := TwoSessionsReached(ipAddrs, a);
    s := HandoverNextToUe(s1, a, dl);
    ReachesThrough(Start(ipAddrs), TwoSessions(a), s1, HandoverOf(a, dl), s);
  }

  // ---- The address table over whole runs ---------------------------------------------------------------------------

  ghost predicate OwnsAddress(s: State, a: nat, ip: Bytes) {
    Live(s, a) && ip == AddressOf(s, a)
  }

  /** Every address entry has an owner. */
  ghost predicate AddressOwned(s: State) {
    forall ip :: ip in s.core.upf.sgiId ==> exists a :: OwnsAddress(s, a, ip)
  }

  /** The address table holds exactly the live sessions' addresses, each with its UE's IMSI. */
  ghost predicate AddressInv(s: State) {
    AddressOwned(s) && forall a :: Live(s, a) ==> HasAddress(s, a)
  }

  /** No two live sessions share an address. */
  ghost predicate Distinct(s: State) {
    forall a, b :: Live(s, a) && Live(s, b) && a != b ==> AddressOf(s, a) != AddressOf(s, b)
  }

  lemma AddressOwnedStep(s: State, st: Step)
    requires Inv(s) && Enabled(s, st) && AddressOwned(s)
    ensures AddressOwned(Apply(s, st))
  {
    hide Inv, Apply, Enabled, OwnsAddress;
    var s' := Apply(s, st);
    forall ip | ip in s'.core.upf.sgiId ensures exists b :: OwnsAddress(s', b, ip) {
      var b := AddressOnlyOwners(s, st, s', ip);
    }
  }

  lemma AddressOnlyOwners(s: State, st: Step, s': State, ip: Bytes) returns (b: nat)
    requires Inv(s) && Enabled(s, st) && s' == Apply(s, st) && AddressOwned(s) && ip in s'.core.upf.sgiId
    ensures OwnsAddress(s', b, ip)
  {
    hide Inv, Apply, SameContexts, InHandover, NextUplink, AddressOf;
    StepView(s, st);
    TableEffect(s, st);
    PhaseEffect(s, st);
    if st.Create? && ip == AddressOf(s, st.a) {
      b := st.a;
    } else {
      b :| OwnsAddress(s, b, ip);
      if b != st.a {
        Elsewhere(s, s', st.a, b);
      }
    }
    SameAddresses(s, s', st.a, b);
  }

  lemma AddressOwners(s: State, st: Step, s': State, b: nat)
    requires Inv(s) && Enabled(s, st) && s' == Apply(s, st) && AddressInv(s) && Distinct(s') && Live(s', b)
    ensures HasAddress(s', b)
  {
    hide Inv, Apply, SameContexts, InHandover, NextUplink, AddressOf, AddressOwned;
    StepView(s, st);
    TableEffect(s, st);
    PhaseEffect(s, st);
    SameAddresses(s, s', st.a, b);
    SameAddresses(s, s', st.a, st.a);
    if b != st.a {
      Elsewhere(s, s', st.a, b);
      assert Live(s, st.a) ==> HasAddress(s, st.a) && HasAddress(s, b);
    }
  }

  lemma AddressStep(s: State, st: Step)
    requires Inv(s) && Enabled(s, st) && AddressInv(s) && Distinct(Apply(s, st))
    ensures AddressInv(Apply(s, st))
  {
    hide Inv, Apply, Enabled, AddressOwned, Distinct, Live, HasAddress;
    var s' := Apply(s, st);
    AddressOwnedStep(s, st);
    forall b | Live(s', b) ensures HasAddress(s', b) {
      AddressOwners(s, st, s', b);
    }
  }

  lemma {:induction false} AddressRun(s: State, steps: seq<Step>)
    requires Inv(s) && AddressInv(s) && forall x :: x in States(s, steps) ==> Distinct(x)
    ensures forall x :: x in States(s, steps) ==> AddressInv(x)
    decreases |steps|
  {
    hide Inv, Apply, Enabled, Distinct, AddressInv, States;
    LaterStates(s, steps);
    if steps != [] && Enabled(s, steps[0]) {
      var s' := Apply(s, steps[0]);
      LaterStates(s', steps[1..]);
      StepInv(s, steps[0]);
      AddressStep(s, steps[0]);
      AddressRun(s', steps[1..]);
    }
  }

  lemma ExactIsDistinct(s: State)
    requires AddressInv(s)
    ensures Distinct(s)
  {
    hide AddressOwned, AddressOf;
    forall a, b | Live(s, a) && Live(s, b) && a != b ensures AddressOf(s, a) != AddressOf(s, b) {
      assert HasAddress(s, a) && HasAddress(s, b);
    }
  }

  /**
   * In every run the address table holds exactly the live sessions' addresses, each with its UE's
   * IMSI, in all states if and only if in no state two live sessions share an address.
   */
  lemma AddressExact(ipAddrs: map<nat, Bytes>, steps: seq<Step>)
    ensures (forall x :: x in States(Start(ipAddrs), steps) ==> AddressInv(x)) <==>
            (forall x :: x in States(Start(ipAddrs), steps) ==> Distinct(x))
  {
    var s0 := Start(ipAddrs);
    StartInv(ipAddrs);
    assert AddressInv(s0);
    hide Inv, AddressInv, Distinct, States, Start;
    if forall x :: x in States(s0, steps) ==> Distinct(x) {
      AddressRun(s0, steps);
    }
    if forall x :: x in States(s0, steps) ==> AddressInv(x) {
      forall x | x in States(s0, steps) ensures Distinct(x) {
        ExactIsDistinct(x);
      }
    }
  }

  // ---- UEs of the pool -----------------------------------------------------------------------------------------------

  /** `n` UEs have addresses, as the allocation loop leaves them. */
  ghost predicate Pool(ipAddrs: map<nat, Bytes>, n: nat) {
    forall i: nat :: i < n ==> Imsi(i) in ipAddrs && ipAddrs[Imsi(i)] == Address(i)
  }

  ghost predicate InPool(s: State, n: nat) {
    && (forall a :: a in s.ues ==> a < n)
    && (forall i: nat :: i < n ==> AddressOf(s, i) == Address(i))
  }

  /** Only UEs of the pool attach. */
  ghost predicate PoolSteps(steps: seq<Step>, n: nat) {
    forall st :: st in steps ==> st.Attach? ==> st.a < n
  }

  lemma PoolStep(s: State, st: Step, n: nat)
    requires Inv(s) && Enabled(s, st) && InPool(s, n) && (st.Attach? ==> st.a < n)
    ensures InPool(Apply(s, st), n)
  {
    hide Inv, Apply, AddressOf, Address, SameContexts;
    var s' := Apply(s, st);
    StepView(s, st);
    forall b | b in s'.ues ensures b < n {
      if b != st.a {
        Elsewhere(s, s', st.a, b);
      }
    }
    forall i: nat | i < n ensures AddressOf(s', i) == Address(i) {
      SameAddresses(s, s', st.a, i);
    }
  }

  lemma PoolIsDistinct(s: State, n: nat)
    requires InPool(s, n)
    ensures Distinct(s)
  {
    hide AddressOf, Address;
    forall a, b | Live(s, a) && Live(s, b) && a != b ensures AddressOf(s, a) != AddressOf(s, b) {
      if Address(a) == Address(b) {
        AddressInjective(a, b);
      }
    }
  }

  lemma {:induction false} PoolRun(s: State, steps: seq<Step>, s': State, n: nat)
    requires Inv(s) && InPool(s, n) && AddressInv(s) && PoolSteps(steps, n) && Reaches(s, steps, s')
    ensures InPool(s', n) && AddressInv(s')
    decreases |steps|
  {
    hide Inv, Apply, Enabled, InPool, AddressInv, Distinct;
    if steps != [] {
      assert steps[0] in steps;
      StepInv(s, steps[0]);
      PoolStep(s, steps[0], n);
      PoolIsDistinct(Apply(s, steps[0]), n);
      AddressStep(s, steps[0]);
      assert forall st :: st in steps[1..] ==> st in steps;
      PoolRun(Apply(s, steps[0]), steps[1..], s', n);
    }
  }

  /** The UE takes downlink packets: from attach complete until detach. */
  ghost predicate Reachable(s: State, a: nat) {
    Live(s, a) && !InPhase(s, a, SessionUp)
  }

  /** Where a packet to UE number `a` goes: the endpoint last set for it, if it takes packets. */
  ghost function Destination(s: State, a: nat): Upf.Downlink {
    if Reachable(s, a) then Upf.Sent(s.ues[a].current, Ascii("172.18.0.2"), 4000) else Upf.Dropped
  }

  /** Routing to an address of the pool. */
  lemma RouteOne(s: State, n: nat, a: nat)
    requires Inv(s) && AddressInv(s) && InPool(s, n)
    ensures Upf.RouteDownlink(s.core.upf, Address(a)) == Destination(s, a)
  {
    hide AmfInv, SessionInv, HandoverInv, Address, Known, Agree, AddressOf;
    OneUe(s, a);
    if Address(a) in s.core.upf.sgiId && !Live(s, a) {
      var b :| OwnsAddress(s, b, Address(a));
      AddressInjective(a, b);
    }
  }

  /**
   * In every run of UEs of the pool a downlink packet to a UE's address goes to the endpoint last
   * set for that UE while it takes packets and is dropped otherwise, and a packet to any other
   * address is dropped.
   */
  lemma DownlinkRouting(ipAddrs: map<nat, Bytes>, n: nat, steps: seq<Step>, s: State, ip: Bytes)
    requires Pool(ipAddrs, n) && PoolSteps(steps, n) && Reaches(Start(ipAddrs), steps, s)
    ensures forall a :: ip == Address(a) ==> Upf.RouteDownlink(s.core.upf, ip) == Destination(s, a)
    ensures (forall a :: ip != Address(a)) ==> Upf.RouteDownlink(s.core.upf, ip) == Upf.Dropped
    ensures forall x :: x in s.core.upf.sgiId <==> exists a :: Live(s, a) && x == Address(a)
  {
    var s0 := Start(ipAddrs);
    RunKeeps(s0, steps, s);
    PoolRun(s0, steps, s, n);
    hide Inv, Reaches, Start, Pool, PoolSteps, Address, Destination;
    forall a | ip == Address(a) ensures Upf.RouteDownlink(s.core.upf, ip) == Destination(s, a) {
      RouteOne(s, n, a);
    }
    PoolAddresses(s, n);
  }

  /** In the pool the address table holds exactly the addresses of the live UEs. */
  lemma PoolAddresses(s: State, n: nat)
    requires AddressInv(s) && InPool(s, n)
    ensures forall x :: x in s.core.upf.sgiId <==> exists a :: Live(s, a) && x == Address(a)
  {
    hide Address, AddressOf;
    forall x | x in s.core.upf.sgiId ensures exists a :: Live(s, a) && x == Address(a) {
      var a :| OwnsAddress(s, a, x);
    }
    forall a | Live(s, a) ensures Address(a) in s.core.upf.sgiId {
      assert HasAddress(s, a);
    }
  }

  // ---- Nothing is left behind --------------------------------------------------------------------------------------

  lemma {:induction false} OwnedRun(s: State, steps: seq<Step>, s': State)
    requires Inv(s) && UplinkOwned(s) && AddressOwned(s) && Reaches(s, steps, s')
    ensures UplinkOwned(s') && AddressOwned(s')
    decreases |steps|
  {
    hide Inv, Apply, Enabled, UplinkOwned, AddressOwned;
    if steps != [] {
      StepInv(s, steps[0]);
      UplinkOwnedStep(s, steps[0]);
      AddressOwnedStep(s, steps[0]);
      OwnedRun(Apply(s, steps[0]), steps[1..], s');
    }
  }

  /** In every run that ends with all UEs detached all tables of the AMF and the UPF are empty again. */
  lemma NothingLeft(ipAddrs: map<nat, Bytes>, steps: seq<Step>, s: State)
    requires Reaches(Start(ipAddrs), steps, s) && s.ues == map[]
    ensures s.core.amf.s1AmfId == map[] && s.core.amf.ueCtx == map[]
    ensures s.core.upf.s11Id == map[] && s.core.upf.ueCtx == map[] && s.core.upf.hoCtx == map[]
    ensures s.core.upf.s1Id == map[] && s.core.upf.sgiId == map[]
  {
    var s0 := Start(ipAddrs);
    RunKeeps(s0, steps, s);
    OwnedRun(s0, steps, s);
    hide Reaches, AddressOf;
    assert forall a :: !(a in s.ues);
  }
}
