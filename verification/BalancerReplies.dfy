/** What the load balancer's callers are told, over whole runs of the service cache. */
module BalancerReplies {
  import opened Balancer

  // ---- What a run says on its own --------------------------------------------------------------------------------

  ghost predicate Called(done: seq<Step>, p: Pid, t: Target) {
    CallGetServers(p, t) in done
  }

  /** The endpoints that the service `sid` was last given, by its creation or by a tick. */
  ghost function Latest(done: seq<Step>, sid: Sid): seq<Backend> {
    if done == [] then []
    else
      var st := done[|done| - 1];
      if (st.Create? || st.LoopTicks?) && st.sid == sid then st.endpoints else Latest(done[..|done| - 1], sid)
  }

  /** The state after the steps `done` from the start. */
  ghost function After(done: seq<Step>): State {
    if done == [] then INIT
    else
      var s, st := After(done[..|done| - 1]), done[|done| - 1];
      if Refs(s) && Enabled(s, st) then Apply(s, st) else s
  }

  /** After its step number `j`, a look-up or an insertion, the caller finds `sid` cached for `t`. */
  ghost predicate FindsAt(done: seq<Step>, j: nat, p: Pid, t: Target, sid: Sid) {
    && j < |done| && (done[j] == Look(p) || done[j] == Insert(p))
    && var cache := After(done[..j + 1]).cache; t in cache && cache[t] == sid
  }

  ghost predicate Finds(done: seq<Step>, p: Pid, t: Target, sid: Sid) {
    Called(done, p, t) && exists j: nat :: FindsAt(done, j, p, t, sid)
  }

  /** In step number `k` the caller reads the list that its service was last given. */
  ghost predicate ReadsAt(done: seq<Step>, k: nat, p: Pid, t: Target, sid: Sid, list: seq<Backend>) {
    && k < |done| && done[k].Serve? && done[k].pid == p
    && Finds(done[..k], p, t, sid) && Latest(done[..k], sid) == list
  }

  ghost predicate HasRead(done: seq<Step>, p: Pid, list: seq<Backend>) {
    exists k: nat, t, sid :: ReadsAt(done, k, p, t, sid, list)
  }

  /** The reply follows from the run. */
  ghost predicate Explained(done: seq<Step>, p: Pid, reply: Reply) {
    match reply
    case Done => CallReset(p) in done
    case Failed => CreateFails(p) in done
    case Empty => HasRead(done, p, [])
    case Chosen(b) => exists list :: HasRead(done, p, list) && b in list
  }

  // ---- The invariant ----------------------------------------------------------------------------------------------

  ghost predicate CallerTold(done: seq<Step>, p: Pid, c: Caller) {
    match c
    case Looking(t) => Called(done, p, t)
    case Creating(t) => Called(done, p, t)
    case Inserting(t, _) => Called(done, p, t)
    case Discarding(t, _, v) => Finds(done, p, t, v)
    case Awaiting(t, _, v) => Finds(done, p, t, v)
    case Serving(t, v) => Finds(done, p, t, v)
    case Picking(_, servers) => HasRead(done, p, servers)
    case Returned(reply) => Explained(done, p, reply)
    case _ => CallReset(p) in done
  }

  ghost predicate Told(done: seq<Step>, s: State) {
    && s == After(done)
    && (forall sid :: sid in s.services ==> s.services[sid].endpoints == Latest(done, sid))
    && (forall p :: p in s.callers ==> CallerTold(done, p, s.callers[p]))
    && (forall p :: CreateFails(p) in done ==> p in s.callers && s.callers[p] == Returned(Failed))
  }

  lemma FindsStays(done: seq<Step>, st: Step, p: Pid, t: Target, sid: Sid)
    requires Finds(done, p, t, sid)
    ensures Finds(done + [st], p, t, sid)
  {
    hide After;
    var j: nat :| FindsAt(done, j, p, t, sid);
    assert (done + [st])[..j + 1] == done[..j + 1];
    assert FindsAt(done + [st], j, p, t, sid);
  }

  lemma HasReadStays(done: seq<Step>, st: Step, p: Pid, list: seq<Backend>)
    requires HasRead(done, p, list)
    ensures HasRead(done + [st], p, list)
  {
    hide Finds, Latest;
    var k: nat, t, sid :| ReadsAt(done, k, p, t, sid, list);
    assert (done + [st])[..k] == done[..k];
    assert ReadsAt(done + [st], k, p, t, sid, list);
  }

  lemma CallerToldStays(done: seq<Step>, st: Step, p: Pid, c: Caller)
    requires CallerTold(done, p, c)
    ensures CallerTold(done + [st], p, c)
  {
    hide Finds, HasRead;
    match c
    case Discarding(t, _, v) => FindsStays(done, st, p, t, v);
    case Awaiting(t, _, v) => FindsStays(done, st, p, t, v);
    case Serving(t, v) => FindsStays(done, st, p, t, v);
    case Picking(_, servers) => HasReadStays(done, st, p, servers);
    case Returned(reply) =>
      if reply.Empty? {
        HasReadStays(done, st, p, []);
      } else if reply.Chosen? {
        var list :| HasRead(done, p, list) && reply.backend in list;
        HasReadStays(done, st, p, list);
      }
    case _ =>
  }

  lemma AfterStep(done: seq<Step>, s: State, st: Step)
    requires s == After(done) && Refs(s) && Enabled(s, st)
    ensures After(done + [st]) == Apply(s, st)
  {
    hide Refs, Enabled, Apply;
    assert (done + [st])[..|done|] == done;
  }

  lemma LatestStep(done: seq<Step>, st: Step, sid: Sid)
    ensures Latest(done + [st], sid) ==
            if (st.Create? || st.LoopTicks?) && st.sid == sid then st.endpoints else Latest(done, sid)
  {
    assert (done + [st])[..|done|] == done;
  }

  /** The endpoints of every service are those it was last given. */
  lemma EndpointsStep(s: State, st: Step, sid: Sid)
    requires Refs(s) && Enabled(s, st) && sid in Apply(s, st).services
    ensures var e := Apply(s, st).services[sid].endpoints;
            if (st.Create? || st.LoopTicks?) && st.sid == sid then e == st.endpoints
            else sid in s.services && e == s.services[sid].endpoints
  {
    if st.CloseMine? || st.CloseNext? || st.Pick? {
      EndpointsKept(s, st, sid);
    } else {
      hide Refs, Lists, CallerOk;
    }
  }

  lemma EndpointsKept(s: State, st: Step, sid: Sid)
    requires Refs(s) && Enabled(s, st) && sid in Apply(s, st).services && (st.CloseMine? || st.CloseNext? || st.Pick?)
    ensures sid in s.services && Apply(s, st).services[sid].endpoints == s.services[sid].endpoints
  {
    hide Refs, Lists;
    var c := Me(s, st.pid);
  }

  // What a caller is told by its own step.

  lemma FoundHere(done: seq<Step>, s: State, st: Step, p: Pid, t: Target, sid: Sid)
    requires s == After(done) && Refs(s) && Enabled(s, st) && (st == Look(p) || st == Insert(p)) && Called(done, p, t)
    requires t in Apply(s, st).cache && Apply(s, st).cache[t] == sid
    ensures Finds(done + [st], p, t, sid)
  {
    hide Refs, Enabled, Apply, After;
    AfterStep(done, s, st);
    var all := done + [st];
    assert all[..|done| + 1] == all;
    assert FindsAt(all, |done|, p, t, sid);
  }

  lemma ReadHere(done: seq<Step>, s: State, st: Step, p: Pid, t: Target, sid: Sid)
    requires Told(done, s) && st.Serve? && st.pid == p && Finds(done, p, t, sid) && sid in s.services
    ensures HasRead(done + [st], p, s.services[sid].endpoints)
  {
    hide After, Finds, Latest;
    var all := done + [st];
    assert all[..|done|] == done;
    assert ReadsAt(all, |done|, p, t, sid, s.services[sid].endpoints);
  }

  lemma ToldByLooking(done: seq<Step>, s: State, st: Step, p: Pid)
    requires Refs(s) && Told(done, s) && Enabled(s, st) && OwnStep(st, p) && (st.Look? || st.Insert?)
    ensures p in Apply(s, st).callers && CallerTold(done + [st], p, Apply(s, st).callers[p])
  {
    var c := Me(s, p);
    assert CallerTold(done, p, c);
    hide Refs, CallerOk, Told, Lists, Finds, HasRead;
    var s' := Apply(s, st);
    assert s == After(done) by {
      ToldAfter(done, s);
    }
    var t := c.target;
    if t in s'.cache {
      FoundHere(done, s, st, p, t, s'.cache[t]);
    }
  }

  lemma ToldAfter(done: seq<Step>, s: State)
    requires Told(done, s)
    ensures s == After(done)
  {
  }

  lemma ServeResult(s: State, st: Step, p: Pid)
    requires Refs(s) && Enabled(s, st) && st.Serve? && st.pid == p
    ensures p in s.callers && s.callers[p].Serving? && s.callers[p].svc in s.services && p in Apply(s, st).callers
    ensures var list, c := s.services[s.callers[p].svc].endpoints, Apply(s, st).callers[p];
            if list == [] then c == Returned(Empty)
            else (c.Picking? && c.servers == list) || (c.Returned? && c.reply.Chosen? && c.reply.backend in list)
  {
    hide Refs, Lists;
    var c := Me(s, p);
  }

  lemma ToldByServing(done: seq<Step>, s: State, st: Step, p: Pid)
    requires Refs(s) && Told(done, s) && Enabled(s, st) && OwnStep(st, p) && st.Serve?
    ensures p in Apply(s, st).callers && CallerTold(done + [st], p, Apply(s, st).callers[p])
  {
    hide Refs, Apply, Enabled, Finds, HasRead, After, Latest;
    ServeResult(s, st, p);
    var Serving(t, v) := s.callers[p];
    assert CallerTold(done, p, s.callers[p]);
    ReadHere(done, s, st, p, t, v);
  }

  lemma PickResult(s: State, st: Step, p: Pid)
    requires Refs(s) && Enabled(s, st) && st.Pick? && st.pid == p
    ensures p in s.callers && s.callers[p].Picking? && p in Apply(s, st).callers
    ensures var c := Apply(s, st).callers[p];
            c.Returned? && c.reply.Chosen? && c.reply.backend in s.callers[p].servers
  {
    hide Refs, Lists;
    var c := Me(s, p);
  }

  lemma ToldByPicking(done: seq<Step>, s: State, st: Step, p: Pid)
    requires Refs(s) && Told(done, s) && Enabled(s, st) && OwnStep(st, p) && st.Pick?
    ensures p in Apply(s, st).callers && CallerTold(done + [st], p, Apply(s, st).callers[p])
  {
    hide Refs, Apply, Enabled, Finds, HasRead, After, Latest;
    PickResult(s, st, p);
    assert CallerTold(done, p, s.callers[p]);
    HasReadStays(done, st, p, s.callers[p].servers);
  }

  /** Where the remaining steps lead. */
  ghost predicate GoesTo(s: State, st: Step, p: Pid, c: Caller) {
    match st
    case CallGetServers(_, t) => c == Looking(t)
    case CallReset(_) => c == Draining
    case CreateFails(_) => c == Returned(Failed)
    case Create(_, sid, _) => p in s.callers && s.callers[p].Creating? && c == Inserting(s.callers[p].target, sid)
    case CloseMine(_) => p in s.callers && s.callers[p].Discarding? && c.Awaiting? && c.target == s.callers[p].target && c.svc == s.callers[p].svc
    case MineClosed(_) => p in s.callers && s.callers[p].Awaiting? && c == Serving(s.callers[p].target, s.callers[p].svc)
    case _ =>
      && p in s.callers && (s.callers[p].Draining? || s.callers[p].Closing? || s.callers[p].Waiting?)
      && (c.Closing? || c.Waiting? || c == Returned(Done))
  }

  lemma OtherResult(s: State, st: Step, p: Pid)
    requires Refs(s) && Enabled(s, st) && OwnStep(st, p) && !st.Look? && !st.Insert? && !st.Serve? && !st.Pick?
    ensures p in Apply(s, st).callers && GoesTo(s, st, p, Apply(s, st).callers[p])
  {
    hide Refs, Lists, CloseChannel;
    CallerMovesItself(s, st);
    if p in s.callers {
      var c := Me(s, p);
    }
  }

  lemma ToldByOthers(done: seq<Step>, s: State, st: Step, p: Pid)
    requires Refs(s) && Told(done, s) && Enabled(s, st) && OwnStep(st, p)
    requires !st.Look? && !st.Insert? && !st.Serve? && !st.Pick?
    ensures p in Apply(s, st).callers && CallerTold(done + [st], p, Apply(s, st).callers[p])
  {
    hide Refs, Apply, Enabled, Finds, HasRead, Explained, After, Latest;
    OtherResult(s, st, p);
    assert st in done + [st];
    if p in s.callers {
      assert CallerTold(done, p, s.callers[p]);
      CallerToldStays(done, st, p, s.callers[p]);
    }
    Returns(done, st, p);
  }

  lemma Returns(done: seq<Step>, st: Step, p: Pid)
    ensures st == CreateFails(p) ==> Explained(done + [st], p, Failed)
    ensures CallReset(p) in done ==> Explained(done + [st], p, Done)
  {
  }

  lemma CallerToldStep(done: seq<Step>, s: State, st: Step, p: Pid)
    requires Refs(s) && Told(done, s) && Enabled(s, st) && p in Apply(s, st).callers
    ensures CallerTold(done + [st], p, Apply(s, st).callers[p])
  {
    hide Refs, Enabled, Apply, CallerTold, After;
    if OwnStep(st, p) {
      if st.Look? || st.Insert? {
        ToldByLooking(done, s, st, p);
      } else if st.Serve? {
        ToldByServing(done, s, st, p);
      } else if st.Pick? {
        ToldByPicking(done, s, st, p);
      } else {
        ToldByOthers(done, s, st, p);
      }
    } else {
      NotNew(s, st, p);
      OnlyOwnSteps(s, st, p);
      CallerToldStays(done, st, p, s.callers[p]);
    }
  }

  lemma NotNew(s: State, st: Step, p: Pid)
    requires Refs(s) && Enabled(s, st) && p in Apply(s, st).callers && !OwnStep(st, p)
    ensures p in s.callers
  {
    hide Refs, Enabled, Apply;
    if st.LoopCloses? || st.LoopTicks? {
      LoopMovesNobody(s, st);
    } else {
      CallerMovesItself(s, st);
    }
  }

  lemma FailedStays(done: seq<Step>, s: State, st: Step, p: Pid)
    requires Refs(s) && Told(done, s) && Enabled(s, st) && CreateFails(p) in done + [st]
    ensures p in Apply(s, st).callers && Apply(s, st).callers[p] == Returned(Failed)
  {
    if st == CreateFails(p) {
      hide Refs, CallerOk, Told, Lists;
    } else {
      assert s.callers[p] == Returned(Failed);
      ReturnedIsFinal(s, st, p);
      hide Refs, Enabled, Apply;
      OnlyOwnSteps(s, st, p);
    }
  }

  lemma ReturnedIsFinal(s: State, st: Step, p: Pid)
    requires Refs(s) && Enabled(s, st) && p in s.callers && s.callers[p].Returned?
    ensures !OwnStep(st, p)
  {
    hide Refs, CallerOk, Lists;
  }

  lemma ToldStep(done: seq<Step>, s: State, st: Step)
    requires Refs(s) && Told(done, s) && Enabled(s, st)
    ensures Told(done + [st], Apply(s, st))
  {
    AfterStep(done, s, st);
    var s', all := Apply(s, st), done + [st];
    forall sid | sid in s'.services ensures s'.services[sid].endpoints == Latest(all, sid) {
      EndpointsStep(s, st, sid);
      LatestStep(done, st, sid);
    }
    hide Refs, Enabled, Apply, CallerTold, After, Latest;
    forall p | p in s'.callers ensures CallerTold(all, p, s'.callers[p]) {
      CallerToldStep(done, s, st, p);
    }
    forall p | CreateFails(p) in all ensures p in s'.callers && s'.callers[p] == Returned(Failed) {
      FailedStays(done, s, st, p);
    }
  }

  lemma {:induction false} RunTold(done: seq<Step>, s: State, loc: map<Sid, Place>, steps: seq<Step>, s': State)
    requires Inv(s, loc) && Told(done, s) && Reaches(s, steps, s')
    ensures Told(done + steps, s')
    decreases |steps|
  {
    hide Located, Attended, Enabled, Apply, Relocate, Told;
    if steps == [] {
      assert done + steps == done;
    } else {
      var st := steps[0];
      StepKeeps(s, loc, st);
      ToldStep(done, s, st);
      RunTold(done + [st], Apply(s, st), Relocate(s, loc, st), steps[1..], s');
      assert done + [st] + steps[1..] == done + steps;
    }
  }

  /**
   * In every interleaving the reply of a returned caller follows from the run: a `GetServers` call gets
   * a backend of the list that the service cached for its target, found when it looked or inserted, was
   * last given before it read; it gets none exactly when that list was empty, and fails exactly when
   * its creation failed.
   */
  lemma EveryReply(steps: seq<Step>, s: State, p: Pid)
    requires Reaches(INIT, steps, s) && p in s.callers && s.callers[p].Returned?
    ensures Explained(steps, p, s.callers[p].reply)
    ensures s.callers[p].reply.Failed? <==> CreateFails(p) in steps
  {
    hide Inv, Reaches, CallerTold, After, Latest, Explained;
    InitialInv();
    InitialTold();
    RunTold([], INIT, map[], steps, s);
    assert [] + steps == steps;
    assert CallerTold(steps, p, s.callers[p]);
    ReturnedTold(steps, p, s.callers[p]);
    if CreateFails(p) in steps {
      assert s.callers[p] == Returned(Failed);
    }
  }

  lemma InitialTold()
    ensures Told([], INIT)
  {
  }

  lemma ReturnedTold(done: seq<Step>, p: Pid, c: Caller)
    requires CallerTold(done, p, c) && c.Returned?
    ensures Explained(done, p, c.reply) && (c.reply.Failed? ==> CreateFails(p) in done)
  {
    hide HasRead;
  }

  // ---- A cached target is not created again -------------------------------------------------------------------------

  ghost predicate IsServed(c: Caller) {
    c.Serving? || c.Picking? || c.Returned?
  }

  lemma ServedStep(s: State, st: Step, p: Pid)
    requires Refs(s) && Enabled(s, st) && p in s.callers && IsServed(s.callers[p])
    ensures OwnStep(st, p) ==> st.Serve? || st.Pick?
    ensures p in Apply(s, st).callers && IsServed(Apply(s, st).callers[p])
  {
    if OwnStep(st, p) {
      var c := Me(s, p);
      hide Refs, Lists;
    } else {
      hide Refs, Enabled, Apply;
      OnlyOwnSteps(s, st, p);
    }
  }

  lemma {:induction false} ServedRun(s: State, loc: map<Sid, Place>, steps: seq<Step>, s': State, p: Pid)
    requires Inv(s, loc) && Reaches(s, steps, s') && p in s.callers && IsServed(s.callers[p])
    ensures forall st :: st in steps && OwnStep(st, p) ==> st.Serve? || st.Pick?
    decreases |steps|
  {
    hide Located, Attended, Enabled, Apply, Relocate, IsServed;
    if steps != [] {
      var st := steps[0];
      StepKeeps(s, loc, st);
      ServedStep(s, st, p);
      ServedRun(Apply(s, st), Relocate(s, loc, st), steps[1..], s', p);
      assert steps == [st] + steps[1..];
    }
  }

  /**
   * A caller that finds its target cached when it looks takes no further step but reading and
   * picking: it creates, inserts and closes nothing.
   */
  lemma CachedIsUsed(steps: seq<Step>, s: State, p: Pid, more: seq<Step>, s': State)
    requires Reaches(INIT, steps, s) && Refs(s) && Enabled(s, Look(p)) && s.callers[p].target in s.cache
    requires Reaches(Apply(s, Look(p)), more, s')
    ensures forall st :: st in more && OwnStep(st, p) ==> st.Serve? || st.Pick?
  {
    InitialInv();
    var loc := RunKeeps(INIT, map[], steps, s);
    StepKeeps(s, loc, Look(p));
    LookHit(s, p);
    hide Inv, Apply, Reaches;
    ServedRun(Apply(s, Look(p)), Relocate(s, loc, Look(p)), more, s', p);
  }

  lemma LookHit(s: State, p: Pid)
    requires Refs(s) && Enabled(s, Look(p)) && s.callers[p].target in s.cache
    ensures p in Apply(s, Look(p)).callers && IsServed(Apply(s, Look(p)).callers[p])
  {
    hide Refs, CallerOk, Lists;
  }
}
