/**
 * The load balancer's service cache: any number of `GetServers` and `Reset` callers and the
 * background loop of every service, interleaved at each lock, channel operation and creation.
 */
module Balancer {
  type Pid = nat
  type Sid = nat
  type Target = string
  type Backend = string

  /** A service whose loop has been started; `closing` and `closed` are its two channels. */
  datatype Service = Service(target: Target, endpoints: seq<Backend>, closing: bool, closed: bool)

  /** What a call returns; `Done` is the return of `Reset`. */
  datatype Reply = Failed | Empty | Chosen(backend: Backend) | Done

  /** Where a caller is: each constructor is the point before its next atomic action. */
  datatype Caller =
    | Looking(target: Target)
    | Creating(target: Target)
    | Inserting(target: Target, mine: Sid)
    | Discarding(target: Target, mine: Sid, svc: Sid)
    | Awaiting(target: Target, mine: Sid, svc: Sid)
    | Serving(target: Target, svc: Sid)
    | Picking(target: Target, servers: seq<Backend>)
    | Draining
    | Closing(services: seq<Sid>, next: nat)
    | Waiting(services: seq<Sid>, next: nat)
    | Returned(reply: Reply)

  /** `panicked` records a close of a closed channel or an index out of range. */
  datatype State = State(
    callers: map<Pid, Caller>,
    services: map<Sid, Service>,
    cache: map<Target, Sid>,
    counter: map<Target, int>,
    panicked: bool)

  datatype Step =
    | CallGetServers(pid: Pid, target: Target)
    | CallReset(pid: Pid)
    | Look(pid: Pid)
    | CreateFails(pid: Pid)
    | Create(pid: Pid, sid: Sid, endpoints: seq<Backend>)
    | Insert(pid: Pid)
    | CloseMine(pid: Pid)
    | MineClosed(pid: Pid)
    | Serve(pid: Pid, roundRobin: bool, choice: Backend)
    | Pick(pid: Pid)
    | Drain(pid: Pid, order: seq<Target>)
    | CloseNext(pid: Pid)
    | NextClosed(pid: Pid)
    | LoopCloses(sid: Sid)
    | LoopTicks(sid: Sid, endpoints: seq<Backend>)

  const INIT := State(map[], map[], map[], map[], false)

  ghost predicate Known(s: State, sid: Sid) {
    sid in s.services
  }

  /** Every service a caller or the cache refers to exists; what has been awaited was closed first. */
  ghost predicate CallerOk(s: State, c: Caller) {
    match c
    case Inserting(t, m) => Known(s, m) && s.services[m].target == t
    case Discarding(t, m, v) => Known(s, m) && Known(s, v) && s.services[v].target == t
    case Awaiting(t, m, v) => Known(s, m) && s.services[m].closing && Known(s, v) && s.services[v].target == t
    case Serving(t, v) => Known(s, v) && s.services[v].target == t
    case Picking(_, servers) => servers != []
    case Closing(services, next) => next <= |services| && forall k :: 0 <= k < |services| ==> Known(s, services[k])
    case Waiting(services, next) =>
      && next < |services| && (forall k :: 0 <= k < |services| ==> Known(s, services[k]))
      && s.services[services[next]].closing
    case _ => true
  }

  ghost predicate Refs(s: State) {
    && (forall p :: p in s.callers ==> CallerOk(s, s.callers[p]))
    && (forall t :: t in s.cache ==> Known(s, s.cache[t]) && s.services[s.cache[t]].target == t)
    && (forall t :: t in s.counter ==> s.counter[t] >= 0)
  }

  ghost predicate NoRepeats(order: seq<Target>) {
    forall i, j :: 0 <= i < j < |order| ==> order[i] != order[j]
  }

  /** `order` lists the cache the way a `range` over it may. */
  ghost predicate Lists(order: seq<Target>, cache: map<Target, Sid>) {
    && NoRepeats(order)
    && (forall k :: 0 <= k < |order| ==> order[k] in cache)
    && (forall t :: t in cache ==> t in order)
  }

  /** The caller `p` with what the references say about it. */
  ghost function Me(s: State, p: Pid): (c: Caller)
    requires Refs(s) && p in s.callers
    ensures CallerOk(s, c)
  {
    s.callers[p]
  }

  ghost predicate Enabled(s: State, st: Step)
    requires Refs(s)
  {
    match st
    case CallGetServers(p, _) => p !in s.callers
    case CallReset(p) => p !in s.callers
    case Look(p) => p in s.callers && s.callers[p].Looking?
    case CreateFails(p) => p in s.callers && s.callers[p].Creating?
    case Create(p, sid, _) => p in s.callers && s.callers[p].Creating? && sid !in s.services
    case Insert(p) => p in s.callers && s.callers[p].Inserting?
    case CloseMine(p) => p in s.callers && s.callers[p].Discarding?
    case MineClosed(p) => p in s.callers && s.callers[p].Awaiting? && s.services[Me(s, p).mine].closed
    case Serve(p, rr, choice) =>
      && p in s.callers && s.callers[p].Serving?
      && var servers := s.services[Me(s, p).svc].endpoints;
      (servers != [] && !rr ==> choice in servers)
    case Pick(p) => p in s.callers && s.callers[p].Picking?
    case Drain(p, order) => p in s.callers && s.callers[p].Draining? && Lists(order, s.cache)
    case CloseNext(p) => p in s.callers && s.callers[p].Closing?
    case NextClosed(p) => p in s.callers && s.callers[p].Waiting? && s.services[Me(s, p).services[Me(s, p).next]].closed
    case LoopCloses(sid) => sid in s.services && s.services[sid].closing && !s.services[sid].closed
    case LoopTicks(sid, _) => sid in s.services && !s.services[sid].closed
  }

  ghost function Move(s: State, p: Pid, c: Caller): State {
    s.(callers := s.callers[p := c])
  }

  /** `close(s.closing)`: closing a closed channel panics. */
  ghost function CloseChannel(s: State, sid: Sid): State
    requires Known(s, sid)
  {
    if s.services[sid].closing then s.(panicked := true)
    else s.(services := s.services[sid := s.services[sid].(closing := true)])
  }

  /** A new service, its loop started, held by its creator. */
  ghost function Created(s: State, p: Pid, sid: Sid, endpoints: seq<Backend>): State
    requires p in s.callers && s.callers[p].Creating?
  {
    var t := s.callers[p].target;
    Move(s, p, Inserting(t, sid)).(services := s.services[sid := Service(t, endpoints, false, false)])
  }

  /** The creator found no entry: its service becomes the cached one. */
  ghost function Inserted(s: State, p: Pid): State
    requires p in s.callers && s.callers[p].Inserting?
  {
    var Inserting(t, m) := s.callers[p];
    Move(s, p, Serving(t, m)).(cache := s.cache[t := m], counter := s.counter[t := 0])
  }

  /** The write-locked part of `Reset`: every cached service moves to the caller's list. */
  ghost function Drained(s: State, p: Pid, order: seq<Target>): State
    requires Lists(order, s.cache)
  {
    var services := seq(|order|, k requires 0 <= k < |order| => s.cache[order[k]]);
    Move(s, p, Closing(services, 0)).(cache := map[])
  }

  ghost function Apply(s: State, st: Step): State
    requires Refs(s) && Enabled(s, st)
  {
    match st
    case CallGetServers(p, t) => Move(s, p, Looking(t))
    case CallReset(p) => Move(s, p, Draining)
    case Look(p) =>
      var t := s.callers[p].target;
      Move(s, p, if t in s.cache then Serving(t, s.cache[t]) else Creating(t))
    case CreateFails(p) => Move(s, p, Returned(Failed))
    case Create(p, sid, endpoints) => Created(s, p, sid, endpoints)
    case Insert(p) =>
      var Inserting(t, m) := Me(s, p);
      if t in s.cache then Move(s, p, Discarding(t, m, s.cache[t])) else Inserted(s, p)
    case CloseMine(p) =>
      var Discarding(t, m, v) := Me(s, p);
      Move(CloseChannel(s, m), p, Awaiting(t, m, v))
    case MineClosed(p) =>
      var Awaiting(t, _, v) := Me(s, p);
      Move(s, p, Serving(t, v))
    case Serve(p, rr, choice) =>
      var Serving(t, v) := Me(s, p);
      var servers := s.services[v].endpoints;
      Move(s, p, if servers == [] then Returned(Empty) else if rr then Picking(t, servers) else Returned(Chosen(choice)))
    case Pick(p) =>
      var Picking(t, servers) := Me(s, p);
      var x := ((if t in s.counter then s.counter[t] else 0) + 1) % |servers|;
      var s' := s.(counter := s.counter[t := x]);
      if 0 <= x < |servers| then Move(s', p, Returned(Chosen(servers[x]))) else s'.(panicked := true)
    case Drain(p, order) => Drained(s, p, order)
    case CloseNext(p) =>
      var Closing(services, next) := Me(s, p);
      if next == |services| then Move(s, p, Returned(Done))
      else Move(CloseChannel(s, services[next]), p, Waiting(services, next))
    case NextClosed(p) =>
      var Waiting(services, next) := Me(s, p);
      Move(s, p, Closing(services, next + 1))
    case LoopCloses(sid) => s.(services := s.services[sid := s.services[sid].(closed := true)])
    case LoopTicks(sid, endpoints) => s.(services := s.services[sid := s.services[sid].(endpoints := endpoints)])
  }

  // ---- Ownership --------------------------------------------------------------------------------

  datatype Place = Cached(target: Target) | Held(pid: Pid) | Pending(pid: Pid, index: nat) | Gone

  /** The service `sid` is in the place `at`. */
  ghost predicate IsAt(s: State, sid: Sid, at: Place) {
    match at
    case Cached(t) => t in s.cache && s.cache[t] == sid
    case Held(p) => p in s.callers && (s.callers[p].Inserting? || s.callers[p].Discarding?) && s.callers[p].mine == sid
    case Pending(p, k) =>
      && p in s.callers && (s.callers[p].Closing? || s.callers[p].Waiting?)
      && var c := s.callers[p];
      (if c.Closing? then c.next else c.next + 1) <= k < |c.services| && c.services[k] == sid
    case Gone => sid in s.services && s.services[sid].closing
  }

  /** `loc` gives every started service its one place. */
  ghost predicate Located(s: State, loc: map<Sid, Place>) {
    && loc.Keys == s.services.Keys
    && forall sid, at :: IsAt(s, sid, at) <==> sid in loc && loc[sid] == at
  }

  /** A service being closed is closed already, or somebody is waiting for it. */
  ghost predicate Awaited(s: State, p: Pid, sid: Sid) {
    p in s.callers &&
    match s.callers[p]
    case Awaiting(_, m, _) => m == sid
    case Waiting(services, next) => next < |services| && services[next] == sid
    case _ => false
  }

  ghost predicate Attended(s: State) {
    forall sid :: sid in s.services ==>
      && (s.services[sid].closed ==> s.services[sid].closing)
      && (s.services[sid].closing && !s.services[sid].closed ==> exists p :: Awaited(s, p, sid))
  }

  ghost predicate Inv(s: State, loc: map<Sid, Place>) {
    Refs(s) && Located(s, loc) && Attended(s) && !s.panicked
  }

  /** Where the step leaves each service. */
  ghost function Relocate(s: State, loc: map<Sid, Place>, st: Step): map<Sid, Place>
    requires Refs(s) && Enabled(s, st) && Located(s, loc)
  {
    match st
    case Create(p, sid, _) => loc[sid := Held(p)]
    case Insert(p) =>
      var Inserting(t, m) := s.callers[p];
      if t in s.cache then loc else loc[m := Cached(t)]
    case CloseMine(p) => loc[s.callers[p].mine := Gone]
    case Drain(p, order) => Handed(loc, p, order)
    case CloseNext(p) =>
      var Closing(services, next) := Me(s, p);
      if next == |services| then loc else loc[services[next] := Gone]
    case _ => loc
  }

  ghost function Handed(loc: map<Sid, Place>, p: Pid, order: seq<Target>): map<Sid, Place> {
    map sid | sid in loc ::
      if loc[sid].Cached? && loc[sid].target in order then Pending(p, IndexOf(order, loc[sid].target)) else loc[sid]
  }

  ghost function IndexOf(order: seq<Target>, t: Target): (k: nat)
    requires t in order
    ensures k < |order| && order[k] == t
  {
    if order[0] == t then 0 else 1 + IndexOf(order[1..], t)
  }

  // ---- One step keeps the invariant ----------------------------------------------------------------

  /** A caller that neither owns a service nor waits for one. */
  ghost predicate Free(c: Caller) {
    !c.Inserting? && !c.Discarding? && !c.Awaiting? && !c.Closing? && !c.Waiting?
  }

  lemma KeepsMove(s: State, loc: map<Sid, Place>, p: Pid, c: Caller, counter: map<Target, int>)
    requires Inv(s, loc) && CallerOk(s, c) && Free(c) && (p in s.callers ==> Free(s.callers[p]))
    requires forall t :: t in counter ==> counter[t] >= 0
    ensures Inv(Move(s, p, c).(counter := counter), loc)
  {
    var s' := Move(s, p, c).(counter := counter);
    assert Refs(s') by {
      CallersStayOk(s, s', p);
    }
    assert forall sid, at :: IsAt(s', sid, at) <==> IsAt(s, sid, at);
    StillAttended(s, s', p);
  }

  /** Callers other than `p` see the same services. */
  lemma CallersStayOk(s: State, s': State, p: Pid)
    requires Refs(s) && p in s'.callers && CallerOk(s', s'.callers[p])
    requires forall q :: q in s'.callers && q != p ==> q in s.callers && s'.callers[q] == s.callers[q]
    requires ServicesGrow(s, s')
    ensures forall q :: q in s'.callers ==> CallerOk(s', s'.callers[q])
  {
    forall q | q in s'.callers && q != p ensures CallerOk(s', s'.callers[q]) {
      assert CallerOk(s, s.callers[q]);
    }
  }

  /** Services are never forgotten, keep their target, and their channels stay closed. */
  ghost predicate ServicesGrow(s: State, s': State) {
    forall sid :: sid in s.services ==>
      && sid in s'.services && s'.services[sid].target == s.services[sid].target
      && (s.services[sid].closing ==> s'.services[sid].closing)
      && (s.services[sid].closed ==> s'.services[sid].closed)
  }

  lemma StillAttended(s: State, s': State, p: Pid)
    requires Attended(s) && s'.services == s.services
    requires forall q :: q in s.callers && q != p ==> q in s'.callers && s'.callers[q] == s.callers[q]
    requires forall sid :: Awaited(s, p, sid) && sid in s.services && !s.services[sid].closed ==> Awaited(s', p, sid)
    ensures Attended(s')
  {
    forall sid | sid in s'.services && s'.services[sid].closing && !s'.services[sid].closed
      ensures exists q :: Awaited(s', q, sid)
    {
      var q :| Awaited(s, q, sid);
      assert Awaited(s', q, sid);
    }
  }

  /** Attention also survives changes to the services, as long as nothing else starts closing. */
  lemma AttendedAfter(s: State, s': State, p: Pid, sid: Sid)
    requires Attended(s) && sid in s'.services
    requires forall x :: x in s'.services && x != sid ==> x in s.services && s'.services[x] == s.services[x]
    requires s'.services[sid].closed ==> s'.services[sid].closing
    requires s'.services[sid].closing && !s'.services[sid].closed ==> exists q :: Awaited(s', q, sid)
    requires forall q, x :: Awaited(s, q, x) ==> Awaited(s', q, x)
    ensures Attended(s')
  {
    forall x | x in s'.services && s'.services[x].closing && !s'.services[x].closed
      ensures exists q :: Awaited(s', q, x)
    {
      if x != sid {
        var q :| Awaited(s, q, x);
        assert Awaited(s', q, x);
      }
    }
  }

  lemma KeepsMineClosed(s: State, loc: map<Sid, Place>, p: Pid)
    requires Inv(s, loc) && p in s.callers && s.callers[p].Awaiting? && s.services[Me(s, p).mine].closed
    ensures Inv(Move(s, p, Serving(s.callers[p].target, s.callers[p].svc)), loc)
  {
    var s' := Move(s, p, Serving(s.callers[p].target, s.callers[p].svc));
    assert CallerOk(s, s.callers[p]);
    assert Refs(s') by {
      CallersStayOk(s, s', p);
    }
    assert forall sid, at :: IsAt(s', sid, at) <==> IsAt(s, sid, at);
    StillAttended(s, s', p);
  }

  lemma KeepsNextClosed(s: State, loc: map<Sid, Place>, p: Pid)
    requires Inv(s, loc) && p in s.callers && s.callers[p].Waiting?
    requires s.services[Me(s, p).services[Me(s, p).next]].closed
    ensures Inv(Move(s, p, Closing(s.callers[p].services, s.callers[p].next + 1)), loc)
  {
    var s' := Move(s, p, Closing(s.callers[p].services, s.callers[p].next + 1));
    assert CallerOk(s, s.callers[p]);
    assert Refs(s') by {
      CallersStayOk(s, s', p);
    }
    assert forall sid, at :: IsAt(s', sid, at) <==> IsAt(s, sid, at);
    StillAttended(s, s', p);
  }

  lemma KeepsReturn(s: State, loc: map<Sid, Place>, p: Pid)
    requires Inv(s, loc) && p in s.callers && s.callers[p].Closing? && s.callers[p].next == |s.callers[p].services|
    ensures Inv(Move(s, p, Returned(Done)), loc)
  {
    var s' := Move(s, p, Returned(Done));
    assert Refs(s') by {
      CallersStayOk(s, s', p);
    }
    assert forall sid, at :: IsAt(s', sid, at) <==> IsAt(s, sid, at);
    StillAttended(s, s', p);
  }

  lemma CreatePlaces(s: State, loc: map<Sid, Place>, p: Pid, sid: Sid, endpoints: seq<Backend>)
    requires Refs(s) && Located(s, loc) && p in s.callers && s.callers[p].Creating? && sid !in s.services
    ensures Located(Created(s, p, sid, endpoints), loc[sid := Held(p)])
  {
    var s', loc' := Created(s, p, sid, endpoints), loc[sid := Held(p)];
    forall x, at ensures IsAt(s', x, at) <==> x in loc' && loc'[x] == at {
      if x == sid {
        NobodyHas(s, sid, at);
      } else {
        assert IsAt(s', x, at) <==> IsAt(s, x, at);
      }
    }
  }

  lemma KeepsCreate(s: State, loc: map<Sid, Place>, p: Pid, sid: Sid, endpoints: seq<Backend>)
    requires Inv(s, loc) && p in s.callers && s.callers[p].Creating? && sid !in s.services
    ensures Inv(Created(s, p, sid, endpoints), loc[sid := Held(p)])
  {
    hide Located, IsAt;
    var s' := Created(s, p, sid, endpoints);
    CreatePlaces(s, loc, p, sid, endpoints);
    assert Refs(s') by {
      CallersStayOk(s, s', p);
    }
    AttendedAfter(s, s', p, sid);
  }

  lemma NobodyHas(s: State, sid: Sid, at: Place)
    requires Refs(s) && sid !in s.services
    ensures !IsAt(s, sid, at)
  {
    if at.Held? && at.pid in s.callers {
      assert CallerOk(s, s.callers[at.pid]);
    } else if at.Pending? && at.pid in s.callers {
      assert CallerOk(s, s.callers[at.pid]);
    }
  }

  lemma KeepsInsertHit(s: State, loc: map<Sid, Place>, p: Pid)
    requires Inv(s, loc) && p in s.callers && s.callers[p].Inserting? && s.callers[p].target in s.cache
    ensures var Inserting(t, m) := s.callers[p];
            Inv(Move(s, p, Discarding(t, m, s.cache[t])), loc)
  {
    var Inserting(t, m) := s.callers[p];
    var s' := Move(s, p, Discarding(t, m, s.cache[t]));
    assert CallerOk(s, s.callers[p]);
    assert Refs(s') by {
      CallersStayOk(s, s', p);
    }
    assert forall sid, at :: IsAt(s', sid, at) <==> IsAt(s, sid, at);
    StillAttended(s, s', p);
  }

  lemma InsertPlaces(s: State, loc: map<Sid, Place>, p: Pid)
    requires Located(s, loc) && p in s.callers && s.callers[p].Inserting? && s.callers[p].target !in s.cache
    requires s.callers[p].mine in s.services
    ensures Located(Inserted(s, p), loc[s.callers[p].mine := Cached(s.callers[p].target)])
  {
    var Inserting(t, m) := s.callers[p];
    var s', loc' := Inserted(s, p), loc[m := Cached(t)];
    assert IsAt(s, m, Held(p));
    forall x, at ensures IsAt(s', x, at) <==> x in loc' && loc'[x] == at {
      if x != m {
        assert IsAt(s', x, at) <==> IsAt(s, x, at);
      } else {
        assert IsAt(s, m, at) <==> at == Held(p);
      }
    }
  }

  lemma KeepsInsertMiss(s: State, loc: map<Sid, Place>, p: Pid)
    requires Inv(s, loc) && p in s.callers && s.callers[p].Inserting? && s.callers[p].target !in s.cache
    ensures Inv(Inserted(s, p), loc[s.callers[p].mine := Cached(s.callers[p].target)])
  {
    hide Located, IsAt;
    var s' := Inserted(s, p);
    assert CallerOk(s, s.callers[p]);
    InsertPlaces(s, loc, p);
    assert Refs(s') by {
      CallersStayOk(s, s', p);
    }
    StillAttended(s, s', p);
  }

  /** The caller `p` owns `sid` at `at` and is about to close it, moving on to `c`. */
  ghost predicate Owns(s: State, p: Pid, sid: Sid, at: Place, c: Caller) {
    && p in s.callers && sid in s.services && IsAt(s, sid, at)
    && (|| (at == Held(p) && s.callers[p].Discarding? && c == Awaiting(s.callers[p].target, sid, s.callers[p].svc))
        || (s.callers[p].Closing? && at == Pending(p, s.callers[p].next)
            && c == Waiting(s.callers[p].services, s.callers[p].next)))
  }

  lemma ClosePlaces(s: State, loc: map<Sid, Place>, p: Pid, sid: Sid, at: Place, c: Caller, x: Sid, y: Place)
    requires Located(s, loc) && Owns(s, p, sid, at, c) && !s.services[sid].closing
    ensures IsAt(Move(CloseChannel(s, sid), p, c), x, y) <==> x in loc[sid := Gone] && loc[sid := Gone][x] == y
  {
    assert IsAt(s, x, y) <==> x in loc && loc[x] == y;
    assert IsAt(s, sid, at) <==> sid in loc && loc[sid] == at;
    if y.Pending? && y.pid == p {
      assert IsAt(s, sid, y) <==> sid in loc && loc[sid] == y;
    }
  }

  lemma CloseRefs(s: State, p: Pid, sid: Sid, at: Place, c: Caller)
    requires Refs(s) && Owns(s, p, sid, at, c) && !s.services[sid].closing
    ensures Refs(Move(CloseChannel(s, sid), p, c))
  {
    assert CallerOk(s, s.callers[p]);
    CallersStayOk(s, Move(CloseChannel(s, sid), p, c), p);
  }

  lemma CloseAttended(s: State, p: Pid, sid: Sid, at: Place, c: Caller)
    requires Attended(s) && Owns(s, p, sid, at, c) && !s.services[sid].closing
    ensures Attended(Move(CloseChannel(s, sid), p, c))
  {
    var s' := Move(CloseChannel(s, sid), p, c);
    assert Awaited(s', p, sid);
    AttendedAfter(s, s', p, sid);
  }

  /** Closing a service one owns: nobody else has it, so the channel was open. */
  lemma KeepsClose(s: State, loc: map<Sid, Place>, p: Pid, sid: Sid, at: Place, c: Caller)
    requires Inv(s, loc) && Owns(s, p, sid, at, c)
    ensures Inv(Move(CloseChannel(s, sid), p, c), loc[sid := Gone])
  {
    hide Refs, CallerOk, Attended, Awaited;
    assert !s.services[sid].closing by {
      assert IsAt(s, sid, Gone) <==> sid in loc && loc[sid] == Gone;
    }
    CloseRefs(s, p, sid, at, c);
    CloseAttended(s, p, sid, at, c);
    forall x, y ensures IsAt(Move(CloseChannel(s, sid), p, c), x, y) <==> x in loc[sid := Gone] && loc[sid := Gone][x] == y {
      hide IsAt;
      ClosePlaces(s, loc, p, sid, at, c, x, y);
    }
  }

  lemma KeepsDrain(s: State, loc: map<Sid, Place>, p: Pid, order: seq<Target>)
    requires Inv(s, loc) && p in s.callers && s.callers[p].Draining? && Lists(order, s.cache)
    ensures Inv(Drained(s, p, order), Handed(loc, p, order))
  {
    var s' := Drained(s, p, order);
    assert Refs(s') by {
      CallersStayOk(s, s', p);
    }
    assert Located(s', Handed(loc, p, order)) by {
      forall x, at ensures IsAt(s', x, at) <==> x in loc && Handed(loc, p, order)[x] == at {
        DrainPlaces(s, loc, p, order, x, at);
      }
    }
    StillAttended(s, s', p);
  }

  lemma {:induction false} IndexOfUnique(order: seq<Target>, k: nat)
    requires NoRepeats(order) && k < |order|
    ensures IndexOf(order, order[k]) == k
  {
  }

  lemma DrainPlaces(s: State, loc: map<Sid, Place>, p: Pid, order: seq<Target>, x: Sid, at: Place)
    requires Located(s, loc) && p in s.callers && s.callers[p].Draining? && Lists(order, s.cache)
    ensures IsAt(Drained(s, p, order), x, at) <==> x in loc && Handed(loc, p, order)[x] == at
  {
    assert IsAt(s, x, at) <==> x in loc && loc[x] == at;
    if at.Pending? && at.pid == p {
      if at.index < |order| && s.cache[order[at.index]] == x {
        assert IsAt(s, x, Cached(order[at.index]));
        IndexOfUnique(order, at.index);
      }
      if x in loc && loc[x].Cached? {
        assert IsAt(s, x, loc[x]);
      }
    } else if at.Cached? && at.target in s.cache {
      assert at.target in order;
    }
  }

  ghost predicate LoopMay(was: Service, svc: Service) {
    && svc.target == was.target && svc.closing == was.closing
    && (was.closed ==> svc.closed) && (svc.closed ==> svc.closing)
  }

  lemma LoopAttended(s: State, sid: Sid, svc: Service)
    requires Attended(s) && sid in s.services && LoopMay(s.services[sid], svc)
    ensures Attended(s.(services := s.services[sid := svc]))
  {
    var s' := s.(services := s.services[sid := svc]);
    forall x | x in s'.services && s'.services[x].closing && !s'.services[x].closed
      ensures exists q :: Awaited(s', q, x)
    {
      var q :| Awaited(s, q, x);
      assert Awaited(s', q, x);
    }
  }

  lemma KeepsLoop(s: State, loc: map<Sid, Place>, sid: Sid, svc: Service)
    requires Inv(s, loc) && sid in s.services && LoopMay(s.services[sid], svc)
    ensures Inv(s.(services := s.services[sid := svc]), loc)
  {
    hide Attended, Awaited;
    var s' := s.(services := s.services[sid := svc]);
    LoopAttended(s, sid, svc);
    assert Refs(s') by {
      forall p | p in s'.callers ensures CallerOk(s', s'.callers[p]) {
        assert CallerOk(s, s.callers[p]);
      }
    }
    assert forall x, at :: IsAt(s', x, at) <==> IsAt(s, x, at);
  }

  lemma KeepsPlain(s: State, loc: map<Sid, Place>, st: Step)
    requires Inv(s, loc) && Enabled(s, st)
    requires st.CallGetServers? || st.CallReset? || st.Look? || st.CreateFails? || st.Serve? || st.Pick?
    ensures Inv(Apply(s, st), loc)
  {
    hide Located, Attended, IsAt, Awaited, Relocate;
    match st
    case CallGetServers(p, t) => KeepsMove(s, loc, p, Looking(t), s.counter);
    case CallReset(p) => KeepsMove(s, loc, p, Draining, s.counter);
    case Look(p) =>
      var t := Me(s, p).target;
      KeepsMove(s, loc, p, if t in s.cache then Serving(t, s.cache[t]) else Creating(t), s.counter);
    case CreateFails(p) => KeepsMove(s, loc, p, Returned(Failed), s.counter);
    case Serve(p, rr, choice) => KeepsServe(s, loc, st);
    case Pick(p) => KeepsPick(s, loc, st);
  }

  lemma KeepsServe(s: State, loc: map<Sid, Place>, st: Step)
    requires Inv(s, loc) && Enabled(s, st) && st.Serve?
    ensures Inv(Apply(s, st), loc)
  {
    hide Located, Attended, IsAt, Awaited, Relocate;
    var Serve(p, rr, choice) := st;
    var Serving(t, v) := Me(s, p);
    var servers := s.services[v].endpoints;
    var c := if servers == [] then Returned(Empty) else if rr then Picking(t, servers) else Returned(Chosen(choice));
    KeepsMove(s, loc, p, c, s.counter);
  }

  lemma KeepsPick(s: State, loc: map<Sid, Place>, st: Step)
    requires Inv(s, loc) && Enabled(s, st) && st.Pick?
    ensures Inv(Apply(s, st), loc)
  {
    hide Located, Attended, IsAt, Awaited, Relocate;
    var p := st.pid;
    var Picking(t, servers) := Me(s, p);
    var x := ((if t in s.counter then s.counter[t] else 0) + 1) % |servers|;
    KeepsMove(s, loc, p, Returned(Chosen(servers[x])), s.counter[t := x]);
  }

  /** Every atomic action of every caller and loop keeps the invariant, and none panics. */
  lemma StepKeeps(s: State, loc: map<Sid, Place>, st: Step)
    requires Inv(s, loc) && Enabled(s, st)
    ensures Inv(Apply(s, st), Relocate(s, loc, st))
  {
    hide Located, Attended, Awaited;
    match st
    case Create(p, sid, endpoints) => KeepsCreate(s, loc, p, sid, endpoints);
    case Insert(p) =>
      if Me(s, p).target in s.cache {
        KeepsInsertHit(s, loc, p);
      } else {
        KeepsInsertMiss(s, loc, p);
      }
    case CloseMine(p) => KeepsClose(s, loc, p, Me(s, p).mine, Held(p), Awaiting(Me(s, p).target, Me(s, p).mine, Me(s, p).svc));
    case MineClosed(p) => KeepsMineClosed(s, loc, p);
    case Drain(p, order) => KeepsDrain(s, loc, p, order);
    case CloseNext(p) =>
      var Closing(services, next) := Me(s, p);
      if next == |services| {
        KeepsReturn(s, loc, p);
      } else {
        KeepsClose(s, loc, p, services[next], Pending(p, next), Waiting(services, next));
      }
    case NextClosed(p) => KeepsNextClosed(s, loc, p);
    case LoopCloses(sid) => KeepsLoop(s, loc, sid, s.services[sid].(closed := true));
    case LoopTicks(sid, endpoints) => KeepsLoop(s, loc, sid, s.services[sid].(endpoints := endpoints));
    case _ => KeepsPlain(s, loc, st);
  }

  // ---- Whole runs ------------------------------------------------------------------------------------

  /** Some interleaving of atomic actions leads from `s` to `s'`. */
  ghost predicate Reaches(s: State, steps: seq<Step>, s': State)
    decreases |steps|
  {
    if steps == [] then s' == s
    else Refs(s) && Enabled(s, steps[0]) && Reaches(Apply(s, steps[0]), steps[1..], s')
  }

  lemma {:induction false} RunKeeps(s: State, loc: map<Sid, Place>, steps: seq<Step>, s': State) returns (loc': map<Sid, Place>)
    requires Inv(s, loc) && Reaches(s, steps, s')
    ensures Inv(s', loc')
    decreases |steps|
  {
    hide Located, Attended, Enabled, Apply, Relocate;
    if steps == [] {
      loc' := loc;
    } else {
      StepKeeps(s, loc, steps[0]);
      loc' := RunKeeps(Apply(s, steps[0]), Relocate(s, loc, steps[0]), steps[1..], s');
    }
  }

  lemma InitialInv()
    ensures Inv(INIT, map[])
  {
  }

  ghost predicate InOnePlace(s: State, sid: Sid) {
    && (exists at :: IsAt(s, sid, at))
    && (forall at, at' :: IsAt(s, sid, at) && IsAt(s, sid, at') ==> at == at')
  }

  ghost predicate AllReturned(s: State) {
    forall p :: p in s.callers ==> s.callers[p].Returned?
  }

  /** In every interleaving nothing panics and each started service is in exactly one place. */
  lemma EveryRun(steps: seq<Step>, s: State)
    requires Reaches(INIT, steps, s)
    ensures !s.panicked && Refs(s)
    ensures forall sid :: sid in s.services ==> InOnePlace(s, sid)
  {
    InitialInv();
    var loc := RunKeeps(INIT, map[], steps, s);
    forall sid | sid in s.services ensures InOnePlace(s, sid) {
      assert IsAt(s, sid, loc[sid]);
      assert forall at :: IsAt(s, sid, at) <==> loc[sid] == at;
    }
  }

  /** Once all callers have returned, a service is cached under its own target or its loop has ended. */
  lemma NoLeak(steps: seq<Step>, s: State, sid: Sid)
    requires Reaches(INIT, steps, s) && AllReturned(s) && sid in s.services
    ensures s.services[sid].closed <==> !IsAt(s, sid, Cached(s.services[sid].target))
  {
    InitialInv();
    var loc := RunKeeps(INIT, map[], steps, s);
    var at := loc[sid];
    assert IsAt(s, sid, at);
    assert IsAt(s, sid, Gone) <==> at == Gone;
    assert IsAt(s, sid, Cached(s.services[sid].target)) <==> at == Cached(s.services[sid].target);
    assert forall p :: !Awaited(s, p, sid);
  }

  // ---- Progress ----------------------------------------------------------------------------------------

  /** A step that brings the caller `p` further: its own, or the closing of the loop it waits for. */
  ghost predicate Concerns(s: State, st: Step, p: Pid) {
    match st
    case CallGetServers(_, _) => false
    case CallReset(_) => false
    case LoopCloses(sid) => Awaited(s, p, sid)
    case LoopTicks(_, _) => false
    case _ => st.pid == p
  }

  /** No caller is ever stuck: it can act, or the loop it waits for can. */
  lemma NeverStuck(steps: seq<Step>, s: State, p: Pid)
    requires Reaches(INIT, steps, s) && p in s.callers && !s.callers[p].Returned?
    ensures Refs(s) && exists st :: Enabled(s, st) && Concerns(s, st, p)
  {
    InitialInv();
    var loc := RunKeeps(INIT, map[], steps, s);
    var st := NextOf(s, p);
  }

  lemma NextOf(s: State, p: Pid) returns (st: Step)
    requires Refs(s) && p in s.callers && !s.callers[p].Returned?
    ensures Enabled(s, st) && Concerns(s, st, p)
  {
    hide Refs;
    var c := Me(s, p);
    match c
    case Looking(_) => st := Look(p);
    case Creating(_) => st := CreateFails(p);
    case Inserting(_, _) => st := Insert(p);
    case Discarding(_, _, _) => st := CloseMine(p);
    case Awaiting(_, m, _) => st := if s.services[m].closed then MineClosed(p) else LoopCloses(m);
    case Serving(_, v) => st := Serve(p, true, "");
    case Picking(_, _) => st := Pick(p);
    case Draining =>
      var order := ListOf(s.cache);
      st := Drain(p, order);
    case Closing(_, _) => st := CloseNext(p);
    case Waiting(services, next) =>
      st := if s.services[services[next]].closed then NextClosed(p) else LoopCloses(services[next]);
  }

  /** A `Reset` that has not yet emptied the cache comes before everything else. */
  ghost function Stage(s: State, p: Pid): nat
    requires p in s.callers
  {
    if s.callers[p].Draining? then 1 else 0
  }

  /** How far the caller `p` is from returning. */
  ghost function Rank(s: State, p: Pid): nat
    requires p in s.callers
  {
    match s.callers[p]
    case Looking(_) => 8
    case Creating(_) => 7
    case Inserting(_, _) => 6
    case Discarding(_, _, _) => 5
    case Awaiting(_, m, _) => if m in s.services && s.services[m].closed then 3 else 4
    case Serving(_, _) => 2
    case Picking(_, _) => 1
    case Draining => 0
    case Closing(services, next) => if next < |services| then 3 * (|services| - next) + 1 else 1
    case Waiting(services, next) =>
      if next < |services| then
        3 * (|services| - next) - (if services[next] in s.services && s.services[services[next]].closed then 1 else 0)
      else 0
    case Returned(_) => 0
  }

  ghost predicate Nearer(s: State, s': State, p: Pid)
    requires p in s.callers && p in s'.callers
  {
    Stage(s', p) < Stage(s, p) || (Stage(s', p) == Stage(s, p) && Rank(s', p) < Rank(s, p))
  }

  ghost predicate OwnStep(st: Step, p: Pid) {
    !st.LoopCloses? && !st.LoopTicks? && st.pid == p
  }

  ghost predicate OnlyMoves(s: State, s': State, p: Pid) {
    p in s'.callers && s'.callers == s.callers[p := s'.callers[p]]
  }

  lemma CloseKeepsCallers(s: State, sid: Sid)
    requires Known(s, sid)
    ensures CloseChannel(s, sid).callers == s.callers
  {
  }

  lemma CallerMovesItself(s: State, st: Step)
    requires Refs(s) && Enabled(s, st) && !st.LoopCloses? && !st.LoopTicks?
    ensures OnlyMoves(s, Apply(s, st), st.pid)
  {
    hide Refs, CloseChannel, Lists;
    match st
    case CloseMine(p) => CloseKeepsCallers(s, Me(s, p).mine);
    case CloseNext(p) =>
      var Closing(services, next) := Me(s, p);
      if next < |services| {
        CloseKeepsCallers(s, services[next]);
      }
    case Pick(p) => var Picking(_, servers) := Me(s, p);
    case _ =>
  }

  lemma LoopMovesNobody(s: State, st: Step)
    requires Refs(s) && Enabled(s, st) && (st.LoopCloses? || st.LoopTicks?)
    ensures Apply(s, st).callers == s.callers
  {
    hide Refs, CallerOk, Lists;
  }

  /** Callers move by their own steps only. */
  lemma OnlyOwnSteps(s: State, st: Step, q: Pid)
    requires Refs(s) && Enabled(s, st) && q in s.callers && !OwnStep(st, q)
    ensures q in Apply(s, st).callers && Apply(s, st).callers[q] == s.callers[q]
  {
    hide Refs, Enabled, Apply;
    if st.LoopCloses? || st.LoopTicks? {
      LoopMovesNobody(s, st);
    } else {
      CallerMovesItself(s, st);
    }
  }

  /** No service is forgotten and no closed channel opens again. */
  lemma ClosedStays(s: State, st: Step, sid: Sid)
    requires Refs(s) && Enabled(s, st) && sid in s.services && s.services[sid].closed
    ensures sid in Apply(s, st).services && Apply(s, st).services[sid].closed
  {
    hide Refs, CallerOk;
  }

  lemma SameCallers(s: State, st: Step, p: Pid)
    requires Refs(s) && Enabled(s, st) && p in s.callers && Concerns(s, st, p)
    ensures Apply(s, st).callers.Keys == s.callers.Keys
  {
    hide Refs, Enabled, Apply;
    if st.LoopCloses? {
      LoopMovesNobody(s, st);
    } else {
      CallerMovesItself(s, st);
    }
  }

  lemma NearerByCalling(s: State, st: Step, p: Pid)
    requires Refs(s) && Enabled(s, st) && p in s.callers && OwnStep(st, p) && p in Apply(s, st).callers
    requires st.Look? || st.CreateFails? || st.Create? || st.Insert? || st.CloseMine? || st.MineClosed?
    ensures Nearer(s, Apply(s, st), p)
  {
    hide Refs;
    var c := Me(s, p);
  }

  lemma NearerByServing(s: State, st: Step, p: Pid)
    requires Refs(s) && Enabled(s, st) && p in s.callers && OwnStep(st, p) && p in Apply(s, st).callers
    requires st.Serve? || st.Pick? || st.Drain?
    ensures Nearer(s, Apply(s, st), p)
  {
    hide Refs;
    var c := Me(s, p);
  }

  lemma NearerByClosing(s: State, st: Step, p: Pid)
    requires Refs(s) && Enabled(s, st) && p in s.callers && Concerns(s, st, p) && p in Apply(s, st).callers
    requires st.CloseNext? || st.NextClosed? || st.LoopCloses?
    ensures Nearer(s, Apply(s, st), p)
  {
    hide Refs;
    var c := Me(s, p);
  }

  /** A step that concerns `p` brings it strictly nearer to its return and moves no other caller. */
  lemma ConcernedStep(s: State, st: Step, p: Pid)
    requires Refs(s) && Enabled(s, st) && p in s.callers && Concerns(s, st, p)
    ensures var s' := Apply(s, st);
            s'.callers.Keys == s.callers.Keys && Nearer(s, s', p)
            && forall q :: q in s.callers && q != p ==> s'.callers[q] == s.callers[q]
  {
    hide Refs, Enabled, Apply, Nearer;
    SameCallers(s, st, p);
    assert p in Apply(s, st).callers.Keys;
    forall q | q in s.callers && q != p ensures Apply(s, st).callers[q] == s.callers[q] {
      OnlyOwnSteps(s, st, q);
    }
    if st.CloseNext? || st.NextClosed? || st.LoopCloses? {
      NearerByClosing(s, st, p);
    } else if st.Serve? || st.Pick? || st.Drain? {
      NearerByServing(s, st, p);
    } else {
      NearerByCalling(s, st, p);
    }
  }

  /** A step that does not concern `p` leaves it where it is and never sets it back. */
  lemma OtherStep(s: State, st: Step, p: Pid)
    requires Refs(s) && Enabled(s, st) && p in s.callers && !Concerns(s, st, p)
    ensures var s' := Apply(s, st);
            p in s'.callers && s'.callers[p] == s.callers[p] && Rank(s', p) <= Rank(s, p)
  {
    hide Refs, Apply;
    assert !OwnStep(st, p);
    OnlyOwnSteps(s, st, p);
    hide Enabled;
    match s.callers[p]
    case Awaiting(_, m, _) =>
      if m in s.services && s.services[m].closed {
        ClosedStays(s, st, m);
      }
    case Waiting(services, next) =>
      if next < |services| && services[next] in s.services && s.services[services[next]].closed {
        ClosedStays(s, st, services[next]);
      }
    case _ =>
  }

  ghost predicate NoCalls(steps: seq<Step>) {
    forall st :: st in steps ==> !st.CallGetServers? && !st.CallReset?
  }

  /** Steps that concern `p` lead to its return while all other callers stand still. */
  lemma {:induction false} FinishOne(s: State, loc: map<Sid, Place>, p: Pid)
    returns (steps: seq<Step>, s': State, loc': map<Sid, Place>)
    requires Inv(s, loc) && p in s.callers
    ensures Reaches(s, steps, s') && NoCalls(steps) && Inv(s', loc')
    ensures s'.callers.Keys == s.callers.Keys && s'.callers[p].Returned?
    ensures forall q :: q in s.callers && q != p ==> s'.callers[q] == s.callers[q]
    decreases Stage(s, p), Rank(s, p)
  {
    hide Located, Attended, Enabled, Apply, Relocate, Stage, Rank, Concerns, CallerOk;
    if s.callers[p].Returned? {
      return [], s, loc;
    }
    var st := NextOf(s, p);
    StepKeeps(s, loc, st);
    ConcernedStep(s, st, p);
    NotACall(s, st, p);
    var rest;
    rest, s', loc' := FinishOne(Apply(s, st), Relocate(s, loc, st), p);
    steps := [st] + rest;
    assert steps[1..] == rest;
  }

  lemma NotACall(s: State, st: Step, p: Pid)
    requires Concerns(s, st, p)
    ensures !st.CallGetServers? && !st.CallReset?
  {
  }

  lemma {:induction false} FinishThese(s: State, loc: map<Sid, Place>, todo: set<Pid>)
    returns (steps: seq<Step>, s': State)
    requires Inv(s, loc) && forall p :: p in s.callers && p !in todo ==> s.callers[p].Returned?
    ensures Reaches(s, steps, s') && NoCalls(steps) && AllReturned(s')
    decreases todo
  {
    hide Inv, Reaches;
    if todo == {} {
      ReachesItself(s);
      return [], s;
    }
    var p :| p in todo;
    if p !in s.callers {
      steps, s' := FinishThese(s, loc, todo - {p});
    } else {
      var first, s1, loc1 := FinishOne(s, loc, p);
      var rest;
      rest, s' := FinishThese(s1, loc1, todo - {p});
      ReachesThrough(s, first, s1, rest, s');
      steps := first + rest;
    }
  }

  lemma ReachesItself(s: State)
    ensures Reaches(s, [], s)
  {
  }

  lemma {:induction false} ReachesThrough(s: State, first: seq<Step>, s1: State, rest: seq<Step>, s': State)
    requires Reaches(s, first, s1) && Reaches(s1, rest, s')
    ensures Reaches(s, first + rest, s')
    decreases |first|
  {
    hide Refs, Enabled, Apply;
    if first == [] {
      assert first + rest == rest;
    } else {
      ReachesThrough(Apply(s, first[0]), first[1..], s1, rest, s');
      assert (first + rest)[1..] == first[1..] + rest;
    }
  }

  /** From every reachable state the callers under way can all be brought to their return. */
  lemma AllCanReturn(steps: seq<Step>, s: State) returns (more: seq<Step>, s': State)
    requires Reaches(INIT, steps, s)
    ensures Reaches(s, more, s') && NoCalls(more) && AllReturned(s') && Reaches(INIT, steps + more, s')
  {
    hide Inv, Reaches;
    InitialInv();
    var loc := RunKeeps(INIT, map[], steps, s);
    more, s' := FinishThese(s, loc, s.callers.Keys);
    ReachesThrough(INIT, steps, s, more, s');
  }

  /** A finite map can always be ranged over. */
  lemma ListOf(cache: map<Target, Sid>) returns (order: seq<Target>)
    ensures Lists(order, cache)
  {
    order := [];
    var rest := cache.Keys;
    while rest != {}
      invariant rest <= cache.Keys && NoRepeats(order)
      invariant forall k :: 0 <= k < |order| ==> order[k] in cache && order[k] !in rest
      invariant forall t :: t in cache ==> t in order || t in rest
      decreases rest
    {
      var t :| t in rest;
      order := order + [t];
      rest := rest - {t};
    }
  }
}
