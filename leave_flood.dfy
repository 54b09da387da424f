/** The leave notice as it travels the ring. A leaving node x sends notifyLeave(x, x) to
    its successor; every receiver updates its own membership view and forwards, until some
    receiver stops. Each remaining node holds its own view; all start from the same list. */
module Flood {
  import opened Ring
  import opened Node
  import opened Server
  import opened Fingers

  datatype Stop = Terminated | Undeliverable | OutOfFuel

  /** The views after the flood, the receivers in order, and how the flood ended. */
  datatype FloodRun = FloodRun(views: map<int, seq<int>>, visits: seq<int>, stop: Stop)

  /** What a node does with a notice: (self, its view, leaving, origin) to its new view
      and the notice it forwards. */
  type Handler = (int, seq<int>, int, int) -> LeaveStepResult

  /** notifyLeave as written, or corrected; a call the source cannot handle is never made. */
  function HandlerOf(fixed: bool): Handler
  {
    (self, view, leaving, origin) =>
      if self in view && leaving != self then
        if fixed then LeaveStepFixed(self, view, leaving, origin) else LeaveStep(self, view, leaving, origin)
      else LeaveStepResult(view, None)
  }

  /** Delivers msg and everything it causes, at most `fuel` deliveries. A notice to a node
      that has no view, to the leaving node itself, or to a node missing from its own view
      cannot be handled. */
  function Deliver(views: map<int, seq<int>>, msg: LeaveMsg, fuel: nat, handle: Handler): (r: FloodRun)
    ensures |r.visits| <= fuel
    decreases fuel
  {
    if fuel == 0 then FloodRun(views, [], OutOfFuel)
    else if msg.to !in views || msg.to == msg.leaving || msg.to !in views[msg.to] then
      FloodRun(views, [], Undeliverable)
    else
      var self := msg.to;
      var step := handle(self, views[self], msg.leaving, msg.origin);
      var next := views[self := step.nodes];
      match step.forward
      case None => FloodRun(next, [self], Terminated)
      case Some(m) =>
        var rest := Deliver(next, m, fuel - 1, handle);
        FloodRun(rest.views, [self] + rest.visits, rest.stop)
  }

  /** A flood runs out of fuel only after using every delivery it was given, and its first
      receiver, if any, is the addressee of the first notice. */
  lemma {:induction false} DeliverFuelAndFirst(views: map<int, seq<int>>, msg: LeaveMsg, fuel: nat, handle: Handler)
    ensures var r := Deliver(views, msg, fuel, handle);
            (r.stop == OutOfFuel ==> |r.visits| == fuel) && (r.visits != [] ==> r.visits[0] == msg.to)
    decreases fuel
  {
    if fuel > 0 && msg.to in views && msg.to != msg.leaving && msg.to in views[msg.to] {
      var step := handle(msg.to, views[msg.to], msg.leaving, msg.origin);
      if step.forward.Some? {
        DeliverFuelAndFirst(views[msg.to := step.nodes], step.forward.value, fuel - 1, handle);
      }
    }
  }

  /** The rest of a flood once `visits` are done: stop, or deliver the forwarded notice. */
  function Then(views: map<int, seq<int>>, visits: seq<int>, forward: Option<LeaveMsg>, fuel: nat,
                handle: Handler): (r: FloodRun)
  {
    match forward
    case None => FloodRun(views, visits, Terminated)
    case Some(m) =>
      var rest := Deliver(views, m, fuel, handle);
      FloodRun(rest.views, visits + rest.visits, rest.stop)
  }

  /** Every member holds the same view. */
  function Uniform(nodes: seq<int>): map<int, seq<int>>
  {
    map q | q in nodes :: nodes
  }

  /** controlledLeave of x: the notice (x, x) goes to x's successor, all views equal. */
  function Leave(nodes: seq<int>, x: int, fuel: nat, fixed: bool): (r: FloodRun)
    requires x in nodes
    ensures r.visits != [] ==> r.visits[0] == SuccessorOf(x, nodes)
  {
    DeliverFuelAndFirst(Uniform(nodes), LeaveMsg(SuccessorOf(x, nodes), x, x), fuel, HandlerOf(fixed));
    Deliver(Uniform(nodes), LeaveMsg(SuccessorOf(x, nodes), x, x), fuel, HandlerOf(fixed))
  }

  /** A consistent ring: ascending distinct positions inside [0, ringSize). */
  ghost predicate WellFormedRing(nodes: seq<int>)
  {
    StrictlySorted(nodes) && InRange(nodes)
  }

  /** On a consistent ring each member's successor is the next member, wrapping at the end. */
  lemma NextInSortedRing(s: seq<int>, j: int)
    requires WellFormedRing(s) && 0 <= j < |s|
    ensures SuccessorOf(s[j], s) == s[if j + 1 < |s| then j + 1 else 0]
  {
    var target := FingerTarget(s[j], 0);
    if j + 1 < |s| {
      assert s[j] < s[j + 1] < RingSize;
      assert target == s[j] + 1;
      SuccessorAtIndex(target, s, j + 1);
    } else if s[j] < RingSize - 1 {
      assert target == s[j] + 1;
      SuccessorSpec(target, s);
    } else {
      assert target == 0;
      SuccessorAtIndex(target, s, 0);
    }
  }

  /** The views once each member of qs in turn has replaced its own view by v. */
  function SetAll(views: map<int, seq<int>>, qs: seq<int>, v: seq<int>): (r: map<int, seq<int>>)
    decreases |qs|
  {
    if qs == [] then views else SetAll(views[qs[0] := v], qs[1..], v)
  }

  /** SetAll leaves the view of a node outside qs as it was. */
  lemma {:induction false} SetAllKeeps(views: map<int, seq<int>>, qs: seq<int>, v: seq<int>, q: int)
    requires q !in qs
    ensures q in SetAll(views, qs, v) <==> q in views
    ensures q in views ==> SetAll(views, qs, v)[q] == views[q]
    decreases |qs|
  {
    if qs != [] {
      assert q != qs[0] && q !in qs[1..];
      SetAllKeeps(views[qs[0] := v], qs[1..], v, q);
    }
  }

  /** SetAll gives v to every member of qs. */
  lemma {:induction false} SetAllSets(views: map<int, seq<int>>, qs: seq<int>, v: seq<int>, q: int)
    requires q in qs
    ensures q in SetAll(views, qs, v) && SetAll(views, qs, v)[q] == v
    decreases |qs|
  {
    if q in qs[1..] {
      SetAllSets(views[qs[0] := v], qs[1..], v, q);
    } else {
      assert q == qs[0];
      SetAllKeeps(views[qs[0] := v], qs[1..], v, q);
    }
  }

  /** The facts about the ring that the flood uses, for leaving node x and the remaining
      members R in the order the notice reaches them. */
  ghost predicate LeaveSetup(nodes: seq<int>, x: int, R: seq<int>)
  {
    var after := RemoveFirst(nodes, x);
    var n := |after|;
    x in nodes && x !in after && n >= 1 && |R| == n && NoDup(R)
    && (forall i :: 0 <= i < n ==> R[i] in after && R[i] in nodes)
    && (forall q :: q in after ==> q in R)
    && SuccessorOf(x, nodes) == R[0]
    && (forall i :: 0 <= i < n ==> SuccessorOf(R[i], after) == R[if i + 1 < n then i + 1 else 0])
    && (forall i :: 0 <= i < n ==>
          SuccessorOf(R[i], nodes) == x || SuccessorOf(R[i], nodes) == SuccessorOf(R[i], after))
    && SuccessorOf(R[n - 1], nodes) == x
  }

  /** Position i of the rotation of a length-n sequence that starts at k. */
  function Pos(k: int, i: int, n: int): int
  {
    if k + i < n then k + i else k + i - n
  }

  /** Dropping x from a duplicate-free list: the entries before x stay, the ones after it
      shift down by one. */
  lemma RemovalShape(nodes: seq<int>, x: int) returns (xi: int)
    requires x in nodes
    ensures 0 <= xi < |nodes| && nodes[xi] == x
    ensures var after := RemoveFirst(nodes, x);
            |after| == |nodes| - 1
            && forall i :: 0 <= i < |after| ==> after[i] == if i < xi then nodes[i] else nodes[i + 1]
  {
    xi := IndexOf(nodes, x);
    RemoveAtIndexOf(nodes, x);
  }

  /** Dropping x from a consistent ring leaves a consistent ring of old members without x. */
  lemma RemovalKeepsRing(nodes: seq<int>, x: int)
    requires WellFormedRing(nodes)
    ensures var after := RemoveFirst(nodes, x);
            WellFormedRing(after) && NoDup(after) && x !in after
            && forall q :: q in after ==> q in nodes
  {
    StrictlySortedNoDup(nodes);
    RemoveFirstNoDup(nodes, x);
    RemoveFirstKeepsSorted(nodes, x);
    RemoveFirstInRange(nodes, x);
    RemoveFirstMembers(nodes, x);
  }

  lemma RotationShape(s: seq<int>, k: int)
    requires NoDup(s) && 0 <= k < |s|
    ensures var R := s[k..] + s[..k];
            |R| == |s| && NoDup(R) && multiset(R) == multiset(s)
            && (forall i :: 0 <= i < |s| ==> R[i] == s[Pos(k, i, |s|)])
            && (forall q :: q in s ==> q in R)
  {
    var R := s[k..] + s[..k];
    var n := |s|;
    assert s == s[..k] + s[k..];
    forall i | 0 <= i < n ensures R[i] == s[Pos(k, i, n)] {
    }
    forall i, j | 0 <= i < j < n ensures R[i] != R[j] {
      assert Pos(k, i, n) != Pos(k, j, n);
    }
  }

  /** Along the rotation of a consistent ring, each member's successor is the next entry. */
  lemma RotationSuccessors(s: seq<int>, k: int)
    requires WellFormedRing(s) && 0 <= k < |s|
    ensures var R := s[k..] + s[..k];
            forall i :: 0 <= i < |s| ==> SuccessorOf(R[i], s) == R[if i + 1 < |s| then i + 1 else 0]
  {
    var R := s[k..] + s[..k];
    var n := |s|;
    StrictlySortedNoDup(s);
    RotationShape(s, k);
    forall i | 0 <= i < n
      ensures SuccessorOf(R[i], s) == R[if i + 1 < n then i + 1 else 0]
    {
      NextInSortedRing(s, Pos(k, i, n));
      var i' := if i + 1 < n then i + 1 else 0;
      assert R[i'] == s[Pos(k, i', n)];
    }
  }

  /** In the old view, every remaining member's successor is x or its new successor. */
  lemma OldSuccessors(nodes: seq<int>, x: int, R: seq<int>)
    requires |RemoveFirst(nodes, x)| > 0
    ensures forall i :: 0 <= i < |R| ==>
              SuccessorOf(R[i], nodes) == x || SuccessorOf(R[i], nodes) == SuccessorOf(R[i], RemoveFirst(nodes, x))
  {
    forall i | 0 <= i < |R|
      ensures SuccessorOf(R[i], nodes) == x || SuccessorOf(R[i], nodes) == SuccessorOf(R[i], RemoveFirst(nodes, x))
    {
      if SuccessorOf(R[i], nodes) != x {
        SuccessorAfterRemove(FingerTarget(R[i], 0), nodes, x);
      }
    }
  }

  /** Taken clockwise from x's successor, the remaining members end with x's predecessor,
      whose successor was x. */
  lemma RotationEnds(nodes: seq<int>, x: int) returns (k: int)
    requires WellFormedRing(nodes) && x in nodes && |nodes| >= 2
    ensures var after := RemoveFirst(nodes, x);
            0 <= k < |after| && after[k] == SuccessorOf(x, nodes)
            && SuccessorOf((after[k..] + after[..k])[|after| - 1], nodes) == x
  {
    var xi := RemovalShape(nodes, x);
    var after := RemoveFirst(nodes, x);
    var n := |after|;
    k := if xi < n then xi else 0;
    var R := after[k..] + after[..k];
    NextInSortedRing(nodes, xi);
    var pi := if xi > 0 then xi - 1 else |nodes| - 1;
    assert R[n - 1] == after[Pos(k, n - 1, n)] == nodes[pi];
    NextInSortedRing(nodes, pi);
  }

  /** On a consistent ring with x leaving, the remaining members taken clockwise from x's
      successor satisfy LeaveSetup; k is where that successor sits in the remaining list. */
  lemma EstablishSetup(nodes: seq<int>, x: int) returns (k: int)
    requires WellFormedRing(nodes) && x in nodes && |nodes| >= 2
    ensures var after := RemoveFirst(nodes, x);
            0 <= k < |after| && after[k] == SuccessorOf(x, nodes)
            && LeaveSetup(nodes, x, after[k..] + after[..k])
  {
    k := RotationEnds(nodes, x);
    RemovalKeepsRing(nodes, x);
    var after := RemoveFirst(nodes, x);
    var n := |after|;
    var R := after[k..] + after[..k];
    RotationShape(after, k);
    RotationSuccessors(after, k);
    OldSuccessors(nodes, x, R);
    forall i | 0 <= i < n ensures R[i] in after && R[i] in nodes {
      assert R[i] == after[Pos(k, i, n)];
    }
  }

  /** A delivery that the receiver can handle and that forwards m: the receiver comes first,
      then whatever m causes. */
  lemma PrependVisit(handle: Handler, views: map<int, seq<int>>, msg: LeaveMsg, fuel: nat, after: seq<int>,
                     m: LeaveMsg, s: map<int, seq<int>>, vs: seq<int>, fin: Option<LeaveMsg>, f: nat)
    requires fuel >= 1 && msg.to in views && msg.to in views[msg.to] && msg.to != msg.leaving
    requires handle(msg.to, views[msg.to], msg.leaving, msg.origin) == LeaveStepResult(after, Some(m))
    requires Deliver(views[msg.to := after], m, fuel - 1, handle) == Then(s, vs, fin, f, handle)
    ensures Deliver(views, msg, fuel, handle) == Then(s, [msg.to] + vs, fin, f, handle)
  {
    if fin.Some? {
      var rest := Deliver(s, fin.value, f, handle);
      assert [msg.to] + (vs + rest.visits) == [msg.to] + vs + rest.visits;
    }
  }

  /** A delivery that the receiver can handle: it is visited once and its forward decides the rest. */
  lemma LastVisit(handle: Handler, views: map<int, seq<int>>, msg: LeaveMsg, fuel: nat, after: seq<int>,
                  fin: Option<LeaveMsg>)
    requires fuel >= 1 && msg.to in views && msg.to in views[msg.to] && msg.to != msg.leaving
    requires handle(msg.to, views[msg.to], msg.leaving, msg.origin) == LeaveStepResult(after, fin)
    ensures Deliver(views, msg, fuel, handle) == Then(views[msg.to := after], [msg.to], fin, fuel - 1, handle)
  {
  }

  /** Each of R[lo..], holding `view`, replaces it by `after` and passes the notice (with
      origin o) to the next entry of R. */
  ghost predicate Relays(handle: Handler, view: seq<int>, after: seq<int>, x: int, o: int, R: seq<int>, lo: int)
  {
    0 <= lo
    && (forall i :: lo <= i < |R| ==> handle(R[i], view, x, o).nodes == after)
    && (forall i :: lo <= i < |R| - 1 ==> handle(R[i], view, x, o).forward == Some(LeaveMsg(R[i + 1], x, o)))
  }

  /** One step of a round: R[t] handles the notice and forwards it to R[t + 1]. */
  lemma RoundStep(handle: Handler, views: map<int, seq<int>>, after: seq<int>, x: int, o: int,
                  R: seq<int>, t: int, fuel: nat, fin: Option<LeaveMsg>)
    requires 0 <= t < |R| - 1 && fuel >= |R| - t
    requires R[t] in views && R[t] in views[R[t]] && R[t] != x
    requires handle(R[t], views[R[t]], x, o).nodes == after
    requires handle(R[t], views[R[t]], x, o).forward == Some(LeaveMsg(R[t + 1], x, o))
    requires Deliver(views[R[t] := after], LeaveMsg(R[t + 1], x, o), fuel - 1, handle)
             == Then(SetAll(views[R[t] := after], R[t + 1..], after), R[t + 1..], fin, fuel - 1 - (|R| - (t + 1)), handle)
    ensures Deliver(views, LeaveMsg(R[t], x, o), fuel, handle)
            == Then(SetAll(views, R[t..], after), R[t..], fin, fuel - (|R| - t), handle)
  {
    assert R[t..][0] == R[t] && R[t..][1..] == R[t + 1..];
    assert [R[t]] + R[t + 1..] == R[t..];
    PrependVisit(handle, views, LeaveMsg(R[t], x, o), fuel, after, LeaveMsg(R[t + 1], x, o),
                 SetAll(views[R[t] := after], R[t + 1..], after), R[t + 1..], fin, fuel - (|R| - t));
  }

  /** The last step of a round: R's last entry handles the notice; its forward decides the rest. */
  lemma RoundLast(handle: Handler, views: map<int, seq<int>>, after: seq<int>, x: int, o: int,
                  R: seq<int>, fuel: nat)
    requires |R| >= 1 && fuel >= 1
    requires R[|R| - 1] in views && R[|R| - 1] in views[R[|R| - 1]] && R[|R| - 1] != x
    requires handle(R[|R| - 1], views[R[|R| - 1]], x, o).nodes == after
    ensures Deliver(views, LeaveMsg(R[|R| - 1], x, o), fuel, handle)
            == Then(SetAll(views, R[|R| - 1..], after), R[|R| - 1..], handle(R[|R| - 1], views[R[|R| - 1]], x, o).forward,
                    fuel - 1, handle)
  {
    var t := |R| - 1;
    assert R[t..] == [R[t]];
    assert R[t..][1..] == [];
    LastVisit(handle, views, LeaveMsg(R[t], x, o), fuel, after, handle(R[t], views[R[t]], x, o).forward);
  }

  /** Deliveries along R[t..] to relaying members that hold `view`: the members are reached
      in that order, and what R's last entry forwards decides the rest. */
  lemma {:induction false} Round(handle: Handler, views: map<int, seq<int>>, view: seq<int>, after: seq<int>,
                                 x: int, o: int, R: seq<int>, t: int, fuel: nat)
    requires NoDup(R) && 0 <= t < |R| && fuel >= |R| - t
    requires forall i :: t <= i < |R| ==> R[i] in views && views[R[i]] == view && R[i] in view && R[i] != x
    requires Relays(handle, view, after, x, o, R, t)
    ensures Deliver(views, LeaveMsg(R[t], x, o), fuel, handle)
            == Then(SetAll(views, R[t..], after), R[t..], handle(R[|R| - 1], view, x, o).forward,
                    fuel - (|R| - t), handle)
    decreases |R| - t
  {
    if t + 1 < |R| {
      var next := views[R[t] := after];
      forall i | t + 1 <= i < |R|
        ensures R[i] in next && next[R[i]] == view
      {
        assert R[i] != R[t];
      }
      Round(handle, next, view, after, x, o, R, t + 1, fuel - 1);
      RoundStep(handle, views, after, x, o, R, t, fuel, handle(R[|R| - 1], view, x, o).forward);
    } else {
      RoundLast(handle, views, after, x, o, R, fuel);
    }
  }

  /** The first round of a leave notice (x, x) on a ring where every member holds `nodes`:
      R[0] takes over as origin, the rest relay, and what the last one forwards decides the rest. */
  lemma OneRound(handle: Handler, nodes: seq<int>, after: seq<int>, x: int, R: seq<int>, fuel: nat)
    requires NoDup(R) && |R| >= 1 && fuel >= |R|
    requires forall i :: 0 <= i < |R| ==> R[i] in nodes && R[i] != x
    requires handle(R[0], nodes, x, x).nodes == after
    requires |R| > 1 ==> handle(R[0], nodes, x, x).forward == Some(LeaveMsg(R[1], x, R[0]))
    requires Relays(handle, nodes, after, x, R[0], R, 1)
    ensures Deliver(Uniform(nodes), LeaveMsg(R[0], x, x), fuel, handle)
            == Then(SetAll(Uniform(nodes), R, after), R,
                    (if |R| > 1 then handle(R[|R| - 1], nodes, x, R[0]) else handle(R[0], nodes, x, x)).forward,
                    fuel - |R|, handle)
  {
    var u := Uniform(nodes);
    var next := u[R[0] := after];
    assert R[0] in u && u[R[0]] == nodes;
    assert SetAll(u, R, after) == SetAll(next, R[1..], after);
    if |R| > 1 {
      forall i | 1 <= i < |R|
        ensures R[i] in next && next[R[i]] == nodes
      {
        assert R[i] in u && R[i] != R[0];
      }
      Round(handle, next, nodes, after, x, R[0], R, 1, fuel - 1);
      assert [R[0]] + R[1..] == R;
      PrependVisit(handle, u, LeaveMsg(R[0], x, x), fuel, after, LeaveMsg(R[1], x, R[0]),
                   SetAll(next, R[1..], after), R[1..], handle(R[|R| - 1], nodes, x, R[0]).forward, fuel - |R|);
    } else {
      assert R == [R[0]];
      assert R[1..] == [];
      LastVisit(handle, u, LeaveMsg(R[0], x, x), fuel, after, handle(R[0], nodes, x, x).forward);
    }
  }

  /** Corrected notifyLeave at the first receiver: it takes over as origin and forwards to
      the next member, or stops when it is the only one left. */
  lemma FixedFirstHop(nodes: seq<int>, x: int, R: seq<int>)
    requires LeaveSetup(nodes, x, R)
    ensures HandlerOf(true)(R[0], nodes, x, x)
            == LeaveStepResult(RemoveFirst(nodes, x), if 1 < |R| then Some(LeaveMsg(R[1], x, R[0])) else None)
  {
    assert R[0] in nodes && R[0] != x;
    if 1 < |R| { assert R[1] != R[0]; }
  }

  /** Corrected notifyLeave at a later member: forward to the next member, stop at the last. */
  lemma FixedLaterHop(nodes: seq<int>, x: int, R: seq<int>, i: int)
    requires LeaveSetup(nodes, x, R) && 1 <= i < |R|
    ensures HandlerOf(true)(R[i], nodes, x, R[0]).nodes == RemoveFirst(nodes, x)
    ensures i < |R| - 1 ==> HandlerOf(true)(R[i], nodes, x, R[0]).forward == Some(LeaveMsg(R[i + 1], x, R[0]))
    ensures i == |R| - 1 ==> HandlerOf(true)(R[i], nodes, x, R[0]).forward == None
  {
    assert R[i] in nodes && R[i] != x && R[0] in RemoveFirst(nodes, x);
    if i + 1 < |R| { assert R[i + 1] != R[0]; }
  }

  /** The corrected handler along the first round: after R[0] every member relays, and the
      last one stops. */
  lemma FixedTable(nodes: seq<int>, x: int, R: seq<int>)
    requires LeaveSetup(nodes, x, R)
    ensures HandlerOf(true)(R[0], nodes, x, x)
            == LeaveStepResult(RemoveFirst(nodes, x), if 1 < |R| then Some(LeaveMsg(R[1], x, R[0])) else None)
    ensures Relays(HandlerOf(true), nodes, RemoveFirst(nodes, x), x, R[0], R, 1)
    ensures |R| > 1 ==> HandlerOf(true)(R[|R| - 1], nodes, x, R[0]).forward == None
  {
    FixedFirstHop(nodes, x, R);
    forall i | 1 <= i < |R|
      ensures HandlerOf(true)(R[i], nodes, x, R[0]).nodes == RemoveFirst(nodes, x)
      ensures i < |R| - 1 ==> HandlerOf(true)(R[i], nodes, x, R[0]).forward == Some(LeaveMsg(R[i + 1], x, R[0]))
    {
      FixedLaterHop(nodes, x, R, i);
    }
    if |R| > 1 {
      FixedLaterHop(nodes, x, R, |R| - 1);
    }
  }

  /** notifyLeave as written at the first receiver: it takes over as origin and forwards to
      its new successor, which is itself when it is the only one left. */
  lemma AsWrittenFirstHop(nodes: seq<int>, x: int, R: seq<int>)
    requires LeaveSetup(nodes, x, R)
    ensures HandlerOf(false)(R[0], nodes, x, x)
            == LeaveStepResult(RemoveFirst(nodes, x), Some(LeaveMsg(R[if 1 < |R| then 1 else 0], x, R[0])))
  {
    assert R[0] in nodes && R[0] != x;
  }

  /** notifyLeave as written at a later member of the first round: it never stops, since
      its successor before the removal is either x or its new successor, and neither is the
      origin, except that the last member's new successor is the origin while its old one is x. */
  lemma AsWrittenLaterHop(nodes: seq<int>, x: int, R: seq<int>, i: int)
    requires LeaveSetup(nodes, x, R) && 1 <= i < |R|
    ensures HandlerOf(false)(R[i], nodes, x, R[0]).nodes == RemoveFirst(nodes, x)
    ensures i < |R| - 1 ==> HandlerOf(false)(R[i], nodes, x, R[0]).forward == Some(LeaveMsg(R[i + 1], x, R[0]))
    ensures i == |R| - 1 ==> HandlerOf(false)(R[i], nodes, x, R[0]).forward == Some(LeaveMsg(R[0], x, R[0]))
  {
    assert R[i] in nodes && R[i] != x && R[0] in RemoveFirst(nodes, x);
    if i + 1 < |R| { assert R[i + 1] != R[0]; }
  }

  /** notifyLeave as written in the second round: the view already lacks x, so the stop
      test sees the new successor and only the last member stops. */
  lemma AsWrittenSecondHop(nodes: seq<int>, x: int, R: seq<int>, i: int)
    requires LeaveSetup(nodes, x, R) && 0 <= i < |R|
    ensures HandlerOf(false)(R[i], RemoveFirst(nodes, x), x, R[0]).nodes == RemoveFirst(nodes, x)
    ensures i < |R| - 1 ==> HandlerOf(false)(R[i], RemoveFirst(nodes, x), x, R[0]).forward == Some(LeaveMsg(R[i + 1], x, R[0]))
    ensures i == |R| - 1 ==> HandlerOf(false)(R[i], RemoveFirst(nodes, x), x, R[0]).forward == None
  {
    var after := RemoveFirst(nodes, x);
    assert RemoveFirst(after, x) == after;
    assert R[i] in after && R[i] != x && R[0] in after;
    if i + 1 < |R| { assert R[i + 1] != R[0]; }
  }

  /** The handler as written along the first round: every member after R[0] relays and
      the last one sends the notice back to R[0]. */
  lemma AsWrittenFirstRound(nodes: seq<int>, x: int, R: seq<int>)
    requires LeaveSetup(nodes, x, R)
    ensures Relays(HandlerOf(false), nodes, RemoveFirst(nodes, x), x, R[0], R, 1)
    ensures |R| > 1 ==> HandlerOf(false)(R[|R| - 1], nodes, x, R[0]).forward == Some(LeaveMsg(R[0], x, R[0]))
  {
    forall i | 1 <= i < |R|
      ensures HandlerOf(false)(R[i], nodes, x, R[0]).nodes == RemoveFirst(nodes, x)
      ensures i < |R| - 1 ==> HandlerOf(false)(R[i], nodes, x, R[0]).forward == Some(LeaveMsg(R[i + 1], x, R[0]))
    {
      AsWrittenLaterHop(nodes, x, R, i);
    }
    if |R| > 1 {
      AsWrittenLaterHop(nodes, x, R, |R| - 1);
    }
  }

  /** The handler as written along the second round: every member relays and the last one stops. */
  lemma AsWrittenSecondRound(nodes: seq<int>, x: int, R: seq<int>)
    requires LeaveSetup(nodes, x, R)
    ensures Relays(HandlerOf(false), RemoveFirst(nodes, x), RemoveFirst(nodes, x), x, R[0], R, 0)
    ensures HandlerOf(false)(R[|R| - 1], RemoveFirst(nodes, x), x, R[0]).forward == None
  {
    forall i | 0 <= i < |R|
      ensures HandlerOf(false)(R[i], RemoveFirst(nodes, x), x, R[0]).nodes == RemoveFirst(nodes, x)
      ensures i < |R| - 1 ==> HandlerOf(false)(R[i], RemoveFirst(nodes, x), x, R[0]).forward == Some(LeaveMsg(R[i + 1], x, R[0]))
    {
      AsWrittenSecondHop(nodes, x, R, i);
    }
    AsWrittenSecondHop(nodes, x, R, |R| - 1);
  }

  /** The corrected flood, given the ring facts: one round over R, then stop. */
  lemma FixedFloodRun(nodes: seq<int>, x: int, R: seq<int>, fuel: nat)
    requires LeaveSetup(nodes, x, R) && fuel >= |R|
    ensures Leave(nodes, x, fuel, true) == FloodRun(SetAll(Uniform(nodes), R, RemoveFirst(nodes, x)), R, Terminated)
  {
    FixedTable(nodes, x, R);
    OneRound(HandlerOf(true), nodes, RemoveFirst(nodes, x), x, R, fuel);
  }

  /** A flood that visits R and forwards m, where m in turn visits R and stops. */
  lemma ThenBoth(handle: Handler, u: map<int, seq<int>>, msg: LeaveMsg, fuel: nat, s: map<int, seq<int>>,
                 R: seq<int>, fin0: Option<LeaveMsg>, f: nat, m: LeaveMsg, w: map<int, seq<int>>)
    requires Deliver(u, msg, fuel, handle) == Then(s, R, fin0, f, handle) && fin0 == Some(m)
    requires Deliver(s, m, f, handle) == FloodRun(w, R, Terminated)
    ensures Deliver(u, msg, fuel, handle) == FloodRun(w, R + R, Terminated)
  {
  }

  /** After SetAll over R, every member of R holds v. */
  lemma SetAllCovers(views: map<int, seq<int>>, R: seq<int>, v: seq<int>)
    ensures forall i :: 0 <= i < |R| ==> R[i] in SetAll(views, R, v) && SetAll(views, R, v)[R[i]] == v
  {
    forall i | 0 <= i < |R|
      ensures R[i] in SetAll(views, R, v) && SetAll(views, R, v)[R[i]] == v
    {
      SetAllSets(views, R, v, R[i]);
    }
  }

  /** A round over R that starts at R[0] with every member already holding `after` and
      relaying, where the last one stops. */
  lemma StoppingRound(handle: Handler, s: map<int, seq<int>>, after: seq<int>, x: int, R: seq<int>, fuel: nat)
    requires NoDup(R) && |R| >= 1 && fuel >= |R|
    requires forall i :: 0 <= i < |R| ==> R[i] in s && s[R[i]] == after && R[i] in after && R[i] != x
    requires Relays(handle, after, after, x, R[0], R, 0)
    requires handle(R[|R| - 1], after, x, R[0]).forward == None
    ensures Deliver(s, LeaveMsg(R[0], x, R[0]), fuel, handle) == FloodRun(SetAll(s, R, after), R, Terminated)
  {
    Round(handle, s, after, after, x, R[0], R, 0, fuel);
    assert R[0..] == R;
  }

  /** A first round whose last member sends the notice back to R[0]. */
  lemma RoundBack(handle: Handler, nodes: seq<int>, after: seq<int>, x: int, R: seq<int>, fuel: nat)
    requires NoDup(R) && |R| >= 1 && fuel >= |R|
    requires forall i :: 0 <= i < |R| ==> R[i] in nodes && R[i] != x
    requires handle(R[0], nodes, x, x).nodes == after
    requires handle(R[0], nodes, x, x).forward == Some(LeaveMsg(R[if 1 < |R| then 1 else 0], x, R[0]))
    requires Relays(handle, nodes, after, x, R[0], R, 1)
    requires |R| > 1 ==> handle(R[|R| - 1], nodes, x, R[0]).forward == Some(LeaveMsg(R[0], x, R[0]))
    ensures Deliver(Uniform(nodes), LeaveMsg(R[0], x, x), fuel, handle)
            == Then(SetAll(Uniform(nodes), R, after), R, Some(LeaveMsg(R[0], x, R[0])), fuel - |R|, handle)
  {
    OneRound(handle, nodes, after, x, R, fuel);
  }

  /** A first round whose last member sends the notice back to R[0], followed by a second
      round in which every member already holds `after` and the last one stops. */
  lemma TwoRounds(handle: Handler, nodes: seq<int>, after: seq<int>, x: int, R: seq<int>, fuel: nat)
    requires NoDup(R) && |R| >= 1 && fuel >= 2 * |R|
    requires forall i :: 0 <= i < |R| ==> R[i] in nodes && R[i] in after && R[i] != x
    requires handle(R[0], nodes, x, x).nodes == after
    requires handle(R[0], nodes, x, x).forward == Some(LeaveMsg(R[if 1 < |R| then 1 else 0], x, R[0]))
    requires Relays(handle, nodes, after, x, R[0], R, 1)
    requires |R| > 1 ==> handle(R[|R| - 1], nodes, x, R[0]).forward == Some(LeaveMsg(R[0], x, R[0]))
    requires Relays(handle, after, after, x, R[0], R, 0)
    requires handle(R[|R| - 1], after, x, R[0]).forward == None
    ensures Deliver(Uniform(nodes), LeaveMsg(R[0], x, x), fuel, handle)
            == FloodRun(SetAll(SetAll(Uniform(nodes), R, after), R, after), R + R, Terminated)
  {
    var u := Uniform(nodes);
    var s := SetAll(u, R, after);
    var m := LeaveMsg(R[0], x, R[0]);
    RoundBack(handle, nodes, after, x, R, fuel);
    SetAllCovers(u, R, after);
    StoppingRound(handle, s, after, x, R, fuel - |R|);
    ThenBoth(handle, u, LeaveMsg(R[0], x, x), fuel, s, R, Some(m), fuel - |R|, m, SetAll(s, R, after));
  }

  /** The flood as written, given the ring facts: a round over R that, instead of stopping,
      sends the notice back to R[0], then a second round over R that stops. */
  lemma AsWrittenFloodRun(nodes: seq<int>, x: int, R: seq<int>, fuel: nat)
    requires LeaveSetup(nodes, x, R) && fuel >= 2 * |R|
    ensures var after := RemoveFirst(nodes, x);
            Leave(nodes, x, fuel, false)
            == FloodRun(SetAll(SetAll(Uniform(nodes), R, after), R, after), R + R, Terminated)
  {
    AsWrittenFirstHop(nodes, x, R);
    AsWrittenFirstRound(nodes, x, R);
    AsWrittenSecondRound(nodes, x, R);
    TwoRounds(HandlerOf(false), nodes, RemoveFirst(nodes, x), x, R, fuel);
  }

  /** The corrected flood: on a consistent ring every remaining member handles the notice
      exactly once, clockwise from the leaving node's successor, after which all of them
      hold the list without the leaving node. */
  lemma FixedFloodVisitsEachOnce(nodes: seq<int>, x: int, fuel: nat) returns (k: int)
    requires WellFormedRing(nodes) && x in nodes && |nodes| >= 2 && fuel >= |nodes| - 1
    ensures var after := RemoveFirst(nodes, x);
            var r := Leave(nodes, x, fuel, true);
            0 <= k < |after| && after[k] == SuccessorOf(x, nodes)
            && r.stop == Terminated
            && r.visits == after[k..] + after[..k]
            && multiset(r.visits) == multiset(after)
            && forall q :: q in after ==> q in r.views && r.views[q] == after
  {
    k := EstablishSetup(nodes, x);
    var xi := RemovalShape(nodes, x);
    var after := RemoveFirst(nodes, x);
    var R := after[k..] + after[..k];
    RemovalKeepsRing(nodes, x);
    RotationShape(after, k);
    FixedFloodRun(nodes, x, R, fuel);
    forall q | q in after
      ensures q in Leave(nodes, x, fuel, true).views && Leave(nodes, x, fuel, true).views[q] == after
    {
      SetAllSets(Uniform(nodes), R, after, q);
    }
  }

  /** The flood as written: on a consistent ring every remaining member handles the notice
      twice, going round the ring two times, before it stops. */
  lemma AsWrittenFloodVisitsEachTwice(nodes: seq<int>, x: int, fuel: nat) returns (k: int)
    requires WellFormedRing(nodes) && x in nodes && |nodes| >= 2 && fuel >= 2 * (|nodes| - 1)
    ensures var after := RemoveFirst(nodes, x);
            var r := Leave(nodes, x, fuel, false);
            0 <= k < |after| && after[k] == SuccessorOf(x, nodes)
            && r.stop == Terminated
            && r.visits == (after[k..] + after[..k]) + (after[k..] + after[..k])
            && multiset(r.visits) == multiset(after) + multiset(after)
            && forall q :: q in after ==> q in r.views && r.views[q] == after
  {
    k := EstablishSetup(nodes, x);
    var xi := RemovalShape(nodes, x);
    var after := RemoveFirst(nodes, x);
    var R := after[k..] + after[..k];
    RemovalKeepsRing(nodes, x);
    RotationShape(after, k);
    AsWrittenFloodRun(nodes, x, R, fuel);
    forall q | q in after
      ensures q in Leave(nodes, x, fuel, false).views && Leave(nodes, x, fuel, false).views[q] == after
    {
      SetAllSets(SetAll(Uniform(nodes), R, after), R, after, q);
    }
  }

  /** Ring {1, 2, 4}: a consistent ring in which 4's successor is 1. */
  lemma SmallRing()
    ensures WellFormedRing([1, 2, 4]) && SuccessorOf(4, [1, 2, 4]) == 1 && RemoveFirst([1, 2, 4], 4) == [1, 2]
  {
    assert RemoveFirst([1, 2, 4], 4) == [1, 2];
  }

  /** Ring {1, 2, 4} with node 4 leaving: as written, nodes 1 and 2 each handle the notice
      twice; corrected, once. */
  lemma DoubleFloodExample(fuel: nat)
    requires fuel >= 4
    ensures Leave([1, 2, 4], 4, fuel, false).visits == [1, 2, 1, 2]
    ensures Leave([1, 2, 4], 4, fuel, true).visits == [1, 2]
  {
    SmallRing();
    var after: seq<int> := [1, 2];
    var k := AsWrittenFloodVisitsEachTwice([1, 2, 4], 4, fuel);
    var k' := FixedFloodVisitsEachOnce([1, 2, 4], 4, fuel);
    assert k == 0 && k' == 0;
    assert after[0..] + after[..0] == after;
  }
}
