/** The select loop of a server thread and the round robin that feeds the threads. */
module Worker {

  function Max(x: int, y: int): int {
    if x < y then y else x
  }

  /** `m` is the largest watched descriptor. */
  ghost predicate IsLargest(m: int, pipe: int, conns: seq<int>) {
    && (m == pipe || m in conns)
    && pipe <= m
    && forall c :: c in conns ==> c <= m
  }

  ghost predicate IsMaxElement(m: int, s: seq<int>) {
    (m == 0 || m in s) && m >= 0 && forall c :: c in s ==> c <= m
  }

  /** `max_ele`: the largest element, but at least 0. */
  method MaxElement(s: seq<int>) returns (m: int)
    ensures IsMaxElement(m, s)
  {
    m := 0;
    for i := 0 to |s|
      invariant m == 0 || m in s
      invariant m >= 0 && forall k :: 0 <= k < i ==> s[k] <= m
    {
      m := Max(m, s[i]);
    }
  }

  /** The ready connections, in order. */
  ghost function Served(conns: seq<int>, ready: set<int>): seq<int> {
    if conns == [] then []
    else
      var k := |conns| - 1;
      Served(conns[..k], ready) + if conns[k] in ready then [conns[k]] else []
  }

  /**
   * The connections that outlive a round: `answers[k]` is what serving the k-th one returns, and 0
   * means that its peer is gone.
   */
  ghost function Survivors(conns: seq<int>, ready: set<int>, answers: seq<int>): seq<int>
    requires |answers| == |conns|
  {
    if conns == [] then []
    else
      var k := |conns| - 1;
      Survivors(conns[..k], ready, answers[..k]) + if conns[k] in ready && answers[k] == 0 then [] else [conns[k]]
  }

  /** The connections that a round closes. */
  ghost function Dead(conns: seq<int>, ready: set<int>, answers: seq<int>): seq<int>
    requires |answers| == |conns|
  {
    if conns == [] then []
    else
      var k := |conns| - 1;
      Dead(conns[..k], ready, answers[..k]) + if conns[k] in ready && answers[k] == 0 then [conns[k]] else []
  }

  /** No connection is lost or doubled by a round. */
  lemma {:induction false} Conserved(conns: seq<int>, ready: set<int>, answers: seq<int>)
    requires |answers| == |conns|
    ensures multiset(conns) == multiset(Survivors(conns, ready, answers)) + multiset(Dead(conns, ready, answers))
  {
    hide Served, Survivors, Dead;
    if conns == [] {
      NoneDone(ready);
    } else {
      var k := |conns| - 1;
      var front, c := conns[..k], conns[k];
      var kept, gone := Survivors(front, ready, answers[..k]), Dead(front, ready, answers[..k]);
      Conserved(front, ready, answers[..k]);
      assert conns[..k + 1] == conns && answers[..k + 1] == answers;
      OneMore(conns, ready, answers, k);
      assert conns == front + [c];
      OneAdded(front, c);
      OneAdded(kept, c);
      OneAdded(gone, c);
    }
  }

  lemma OneAdded(s: seq<int>, c: int)
    ensures multiset(s + [c]) == multiset(s) + multiset{c} && s + [] == s
  {
  }

  datatype Admission = Nobody | Admit(fd: int)

  class Worker {
    const pipe: int
    var conns: seq<int>
    var maxFd: int

    /** Holds whenever the worker calls `select`. */
    ghost predicate Valid()
      reads this
    {
      pipe >= 0 && IsLargest(maxFd, pipe, conns)
    }

    constructor (pipe: int)
      requires pipe >= 0
      ensures Valid() && this.pipe == pipe && conns == []
    {
      this.pipe, conns, maxFd := pipe, [], pipe;
    }

    /**
     * One round after `select` has reported `ready`. Every connection present at the start is
     * examined once and in order: the ready ones are served, and those whose peer is gone are closed
     * and erased. A connection admitted in this round is not served, and is the last one of the next.
     */
    method Round(ready: set<int>, admission: Admission, answers: seq<int>)
      returns (served: seq<int>, closed: seq<int>)
      requires Valid() && |answers| == |conns|
      modifies this
      ensures Valid()
      ensures served == Served(old(conns), ready) && closed == Dead(old(conns), ready, answers)
      ensures conns == Survivors(old(conns), ready, answers) + if admission.Admit? then [admission.fd] else []
    {
      hide Served, Survivors, Dead, IsLargest, IsMaxElement;
      ghost var start := conns;
      var size := |conns|;
      ghost var added := if admission.Admit? then [admission.fd] else [];
      if admission.Admit? {
        LargestAdded(maxFd, pipe, conns, admission.fd);
        conns := conns + [admission.fd];
        maxFd := Max(maxFd, admission.fd);
      }
      assert conns == start + added;
      NoneDone(ready);
      served, closed := [], [];
      var i := 0;
      // The number of connections examined, and those of them that stay.
      var done := 0;
      ghost var kept := [];
      while i < size
        invariant 0 <= i <= size && 0 <= done && |start| - done == size - i && |start| == |answers|
        invariant kept == Survivors(start[..done], ready, answers[..done])
        invariant i == |kept| && conns == kept + (start[done..] + added)
        invariant served == Served(start[..done], ready) && closed == Dead(start[..done], ready, answers[..done])
        invariant IsLargest(maxFd, pipe, conns)
        decreases size - i
      {
        OneMore(start, ready, answers, done);
        NextOf(kept, start, done, added);
        var status := 1;
        if conns[i] in ready {
          status := answers[done];
          served := served + [conns[i]];
        }
        if status == 0 {
          closed := closed + [conns[i]];
          conns := conns[..i] + conns[i + 1..];
          size := size - 1;
          var m := MaxElement(conns);
          LargestFound(m, pipe, conns);
          maxFd := Max(pipe, m);
        } else {
          kept := kept + [conns[i]];
          i := i + 1;
        }
        done := done + 1;
      }
      assert start[..done] == start && answers[..done] == answers && start[done..] == [];
    }
  }

  lemma NoneDone(ready: set<int>)
    ensures Served([], ready) == [] && Survivors([], ready, []) == [] && Dead([], ready, []) == []
  {
  }

  /** Examining connection number `k`. */
  lemma OneMore(start: seq<int>, ready: set<int>, answers: seq<int>, k: nat)
    requires k < |start| == |answers|
    ensures var dies := start[k] in ready && answers[k] == 0;
            && Served(start[..k + 1], ready) == Served(start[..k], ready) + (if start[k] in ready then [start[k]] else [])
            && Survivors(start[..k + 1], ready, answers[..k + 1]) ==
               Survivors(start[..k], ready, answers[..k]) + (if dies then [] else [start[k]])
            && Dead(start[..k + 1], ready, answers[..k + 1]) ==
               Dead(start[..k], ready, answers[..k]) + (if dies then [start[k]] else [])
  {
    assert start[..k + 1][..k] == start[..k] && answers[..k + 1][..k] == answers[..k];
  }

  /** The list while a round is under way, before and after its next connection is examined. */
  lemma NextOf(kept: seq<int>, start: seq<int>, k: nat, added: seq<int>)
    requires k < |start|
    ensures var conns, i := kept + (start[k..] + added), |kept|;
            && i < |conns| && conns[i] == start[k]
            && conns == kept + [start[k]] + (start[k + 1..] + added)
            && conns[..i] + conns[i + 1..] == kept + (start[k + 1..] + added)
  {
    assert start[k..] == [start[k]] + start[k + 1..];
  }

  lemma LargestAdded(m: int, pipe: int, conns: seq<int>, c: int)
    requires IsLargest(m, pipe, conns)
    ensures IsLargest(Max(m, c), pipe, conns + [c])
  {
  }

  lemma LargestFound(m: int, pipe: int, conns: seq<int>)
    requires pipe >= 0 && IsMaxElement(m, conns)
    ensures IsLargest(Max(pipe, m), pipe, conns)
  {
  }

  /** The connections that the round robin gives to worker `w` of `n`. */
  function Dealt(accepted: seq<int>, n: nat, w: nat): seq<int>
    requires n > 0
  {
    if accepted == [] then []
    else
      var j := |accepted| - 1;
      Dealt(accepted[..j], n, w) + if j % n == w then [accepted[j]] else []
  }

  /** The accepting loop hands each connection to the worker whose turn it is. */
  method AcceptClients(accepted: seq<int>, n: nat) returns (queues: seq<seq<int>>)
    requires n > 0
    ensures |queues| == n && forall w :: 0 <= w < n ==> queues[w] == Dealt(accepted, n, w)
  {
    queues := seq(n, _ => []);
    var turn := 0;
    for j := 0 to |accepted|
      invariant |queues| == n && turn == j % n
      invariant forall w :: 0 <= w < n ==> queues[w] == Dealt(accepted[..j], n, w)
    {
      assert accepted[..j + 1][..j] == accepted[..j];
      queues := queues[turn := queues[turn] + [accepted[j]]];
      ShareStep(j, n);
      turn := (turn + 1) % n;
    }
    assert accepted[..|accepted|] == accepted;
  }

  /** How many of the first `j` connections worker `w` has got. */
  function Share(j: nat, n: nat, w: nat): nat
    requires n > 0
  {
    j / n + if w < j % n then 1 else 0
  }

  /**
   * Worker `w` gets exactly the connections number w, n + w, 2n + w and so on, in order: connection
   * number j is number j / n of worker j mod n.
   */
  lemma {:induction false} RoundRobin(accepted: seq<int>, n: nat, w: nat)
    requires w < n
    ensures |Dealt(accepted, n, w)| == Share(|accepted|, n, w)
    ensures forall k :: 0 <= k < |Dealt(accepted, n, w)| ==>
              Number(k, n, w) < |accepted| && Dealt(accepted, n, w)[k] == accepted[Number(k, n, w)]
  {
    hide Number, Share;
    if accepted == [] {
      NoShare(n, w);
    } else {
      var j := |accepted| - 1;
      RoundRobin(accepted[..j], n, w);
      ShareStep(j, n);
      NumberOf(j, n);
    }
  }

  lemma NoShare(n: nat, w: nat)
    requires w < n
    ensures Share(0, n, w) == 0
  {
    DivMod(0, n, 0, 0);
  }

  lemma NumberOf(j: nat, n: nat)
    requires n > 0
    ensures Number(j / n, n, j % n) == j
  {
  }

  /** The number, in order of arrival, of the k-th connection of worker `w`. */
  function Number(k: nat, n: nat, w: nat): (j: nat)
    requires w < n
    ensures j / n == k && j % n == w
  {
    DivMod(k * n + w, n, k, w);
    k * n + w
  }

  lemma ShareStep(j: nat, n: nat)
    requires n > 0
    ensures (j + 1) % n == (j % n + 1) % n
    ensures forall w :: 0 <= w < n ==> Share(j + 1, n, w) == Share(j, n, w) + if w == j % n then 1 else 0
    ensures Share(j, n, j % n) == j / n
  {
    var q, r := j / n, j % n;
    if r + 1 < n {
      DivMod(j + 1, n, q, r + 1);
      DivMod(r + 1, n, 0, r + 1);
    } else {
      DivMod(j + 1, n, q + 1, 0);
      DivMod(r + 1, n, 1, 0);
    }
  }

  lemma DivMod(x: nat, n: nat, q: nat, r: nat)
    requires n > 0 && r < n && x == q * n + r
    ensures x / n == q && x % n == r
  {
    var d := x / n - q;
    assert d * n == r - x % n;
    assert d >= 1 ==> d * n >= n;
    assert d <= -1 ==> d * n <= 0 - n;
  }
}
