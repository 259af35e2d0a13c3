/**
 * The simulated RAN on top of the three core functions: it holds the contexts of its UEs and drives
 * the AMF's handlers, one UE procedure after the other.
 */
module Simulator {
  import opened Decimal
  import opened Telecom
  import opened IpPool
  import opened ControlPlane
  import opened SessionTables
  import Upf
  import Smf
  import Amf

  /** What holds between any two procedures of UEs of a pool of `n`. */
  ghost predicate Good(s: State, n: nat) {
    Inv(s) && InPool(s, n) && AddressInv(s)
  }

  lemma GoodStep(s: State, st: Step, n: nat)
    requires Good(s, n) && Enabled(s, st) && (st.Attach? ==> st.a < n)
    ensures Good(Apply(s, st), n) && !Apply(s, st).exited
  {
    hide Apply, Enabled, InPool, AddressInv, Inv;
    StepInv(s, st);
    StepView(s, st);
    PoolStep(s, st, n);
    PoolIsDistinct(Apply(s, st), n);
    AddressStep(s, st);
  }

  lemma GoodStart(s: State, n: nat, ipAddrs: map<nat, Bytes>)
    requires s == Start(ipAddrs) && Pool(ipAddrs, n)
    ensures Good(s, n)
  {
    hide Address;
    StartInv(ipAddrs);
  }

  class Simulator {
    const amf: Amf.Amf
    const pool: nat
    var ues: map<nat, Ue>

    ghost function View(): State
      reads this, amf, amf.smf, amf.upf
    {
      State(amf.CoreView(), ues, false)
    }

    ghost predicate Valid()
      reads this, amf, amf.smf, amf.upf
    {
      Good(View(), pool)
    }

    /** The state is the one after the step `st` from `s`. */
    ghost predicate Moved(s: State, st: Step)
      reads this, amf, amf.smf, amf.upf
    {
      Enabled(s, st) && View() == Apply(s, st)
    }

    /** The UE `a` is in the phase `p`, and the others' contexts are those in `before`. */
    ghost predicate OnlyUe(before: map<nat, Ue>, a: nat, p: Phase)
      reads this
    {
      a in ues && ues[a].phase == p && ues == before[a := ues[a]]
    }

    constructor (pool: nat)
      ensures Valid() && this.pool == pool && ues == map[]
      ensures fresh(amf) && fresh(amf.smf) && fresh(amf.upf)
    {
      var upf := new Upf.Upf(pool);
      var smf := new Smf.Smf();
      var amf := new Amf.Amf(smf, upf);
      this.amf, this.pool, ues := amf, pool, map[];
      new;
      assert Pool(upf.ipAddrs, pool) by {
        forall i: nat | i < pool ensures Imsi(i) in upf.ipAddrs && upf.ipAddrs[Imsi(i)] == Address(i) {
          assert Imsi(i) == FIRST_IMSI + i;
        }
      }
      GoodStart(View(), pool, upf.ipAddrs);
    }

    /** The UE gets an AMF id that is not 0 and that nobody else has. */
    method InitialAttach(a: nat)
      requires Valid() && Enabled(View(), Attach(a)) && a < pool
      modifies this, amf
      ensures Valid() && Moved(old(View()), Attach(a)) && OnlyUe(old(ues), a, Registered)
      ensures a in ues && 0 < ues[a].mmeId < TWO32
      ensures forall b :: b in ues && b != a ==> ues[b].mmeId != ues[a].mmeId
    {
      ghost var s := View();
      GoodStep(s, Attach(a), pool);
      var id := amf.HandleInitialAttach(RanImsi(a), a);
      ues := ues[a := Ue(Registered, id, 0, 0, 0, 0, 0)];
      assert View() == Apply(s, Attach(a));
      hide Apply, Amf.InitialAttach;
      IdOfUe(View(), a);
    }

    /** AMF, SMF and UPF agree on the new session; the error exits are never taken. */
    method CreateSession(a: nat) returns (ok: bool)
      requires Valid() && InPhase(View(), a, Registered)
      modifies this, amf, amf.smf, amf.upf
      ensures ok && Valid() && Moved(old(View()), Create(a)) && OnlyUe(old(ues), a, SessionUp)
      ensures Agree(View(), a)
    {
      hide Amf.CreateSession, Good;
      ghost var s := View();
      GoodStep(s, Create(a), pool);
      var guti := amf.GetGuti(ues[a].mmeId);
      ok := amf.HandleCreateSession(ues[a].mmeId);
      var ul := Amf.Entry(amf.ueCtx, guti).teidUl;
      ues := ues[a := ues[a].(phase := SessionUp, guti := guti, teidUl := ul)];
      assert View() == Apply(s, Create(a));
      AgreedSession(View(), pool, a);
    }

    /** From now on the UE takes downlink packets. */
    method CompleteAttach(a: nat) returns (ok: bool)
      requires Valid() && InPhase(View(), a, SessionUp)
      modifies this, amf, amf.smf, amf.upf
      ensures ok && Valid() && Moved(old(View()), Complete(a)) && OnlyUe(old(ues), a, Attached)
      ensures Reachable(View(), a)
    {
      hide Amf.AttachComplete, Good;
      ghost var s := View();
      GoodStep(s, Complete(a), pool);
      ok := amf.HandleAttachComplete(ues[a].mmeId, ues[a].teidUl);
      ues := ues[a := ues[a].(phase := Attached)];
      assert View() == Apply(s, Complete(a));
    }

    method SetupTunnel(a: nat, dl: nat)
      requires Valid() && InPhase(View(), a, Attached)
      modifies this, amf, amf.upf
      ensures Valid() && Moved(old(View()), Setup(a, dl)) && OnlyUe(old(ues), a, Tunnelled) && ues[a].target == dl
    {
      hide Amf.SetupTunnel, Good;
      ghost var s := View();
      GoodStep(s, Setup(a, dl), pool);
      var indirect := amf.HandleTunnelSetup(ues[a].mmeId, dl);
      ues := ues[a := ues[a].(phase := Tunnelled, indirect := indirect, target := dl)];
      assert View() == Apply(s, Setup(a, dl));
    }

    /** From now on the UE's downlink goes to the target. */
    method SwitchDownlink(a: nat)
      requires Valid() && InPhase(View(), a, Tunnelled)
      modifies this, amf, amf.upf
      ensures Valid() && Moved(old(View()), Switch(a)) && OnlyUe(old(ues), a, Switched)
      ensures Destination(View(), a) == Upf.Sent(old(ues[a].target), Amf.TRAFMON_IP, Amf.TRAFMON_PORT)
    {
      hide Amf.CompleteHandover, Good;
      ghost var s := View();
      GoodStep(s, Switch(a), pool);
      amf.HandleHandoverCompletion(ues[a].mmeId);
      ues := ues[a := ues[a].(phase := Switched, current := ues[a].target)];
      assert View() == Apply(s, Switch(a));
    }

    method TeardownTunnel(a: nat)
      requires Valid() && InPhase(View(), a, Switched)
      modifies this, amf, amf.upf
      ensures Valid() && Moved(old(View()), Teardown(a)) && OnlyUe(old(ues), a, Attached)
      ensures Destination(View(), a) == old(Destination(View(), a))
    {
      hide Amf.TeardownTunnel, Good;
      ghost var s := View();
      GoodStep(s, Teardown(a), pool);
      amf.HandleTunnelTeardown(ues[a].mmeId, ues[a].indirect);
      ues := ues[a := ues[a].(phase := Attached)];
      assert View() == Apply(s, Teardown(a));
    }

    /** The whole trio. */
    method Handover(a: nat, dl: nat)
      requires Valid() && InPhase(View(), a, Attached)
      modifies this, amf, amf.upf
      ensures Valid() && OnlyUe(old(ues), a, Attached)
      ensures Destination(View(), a) == Upf.Sent(dl, Amf.TRAFMON_IP, Amf.TRAFMON_PORT)
    {
      hide Good, Moved, Destination, Amf.Amf.CoreView;
      SetupTunnel(a, dl);
      SwitchDownlink(a);
      TeardownTunnel(a);
    }

    method Detach(a: nat) returns (ok: bool)
      requires Valid() && InPhase(View(), a, Attached)
      modifies this, amf, amf.smf, amf.upf
      ensures ok && Valid() && Moved(old(View()), ControlPlane.Detach(a)) && ues == old(ues) - {a}
    {
      hide Amf.Detach, Good;
      ghost var s := View();
      GoodStep(s, ControlPlane.Detach(a), pool);
      ok := amf.HandleDetach(ues[a].mmeId, ues[a].guti);
      ues := ues - {a};
      assert View() == Apply(s, ControlPlane.Detach(a));
    }

    /** A packet goes to the endpoint last set for the owner of the address, or is dropped. */
    method Downlink(ip: Bytes) returns (r: Upf.Downlink)
      requires Valid()
      ensures forall a :: ip == Address(a) ==> r == Destination(View(), a)
      ensures (forall a :: ip != Address(a)) ==> r == Upf.Dropped
    {
      hide Address, Destination;
      r := amf.upf.HandleDownlink(ip);
      forall a | ip == Address(a) ensures r == Destination(View(), a) {
        RouteOne(View(), pool, a);
      }
      PoolAddresses(View(), pool);
    }

    /** From detached to attached, as the simulator's loop starts. */
    method Connect(a: nat)
      requires Valid() && Enabled(View(), Attach(a)) && a < pool
      modifies this, amf, amf.smf, amf.upf
      ensures Valid() && OnlyUe(old(ues), a, Attached)
    {
      hide Good, Moved, Agree, Reachable, Amf.Amf.CoreView;
      InitialAttach(a);
      var ok := CreateSession(a);
      ok := CompleteAttach(a);
    }

    /** A UE's whole life, whatever the others have done so far: they are as they were. */
    method LifeCycle(a: nat, dl: nat)
      requires Valid() && Enabled(View(), Attach(a)) && a < pool
      modifies this, amf, amf.smf, amf.upf
      ensures Valid() && ues == old(ues)
    {
      hide Good, Moved, Reaches, Destination, Amf.Amf.CoreView;
      Connect(a);
      Handover(a, dl);
      var ok := Detach(a);
      assert ues == old(ues);
    }
  }

  lemma IdOfUe(s: State, a: nat)
    requires Inv(s) && a in s.ues
    ensures 0 < s.ues[a].mmeId < TWO32
    ensures forall b :: b in s.ues && b != a ==> s.ues[b].mmeId != s.ues[a].mmeId
  {
    hide SessionInv, HandoverInv;
    assert Known(s, a);
    OwnId(s, a);
  }

  lemma AgreedSession(s: State, n: nat, a: nat)
    requires Good(s, n) && Live(s, a)
    ensures Agree(s, a)
  {
    hide Agree;
  }
}
