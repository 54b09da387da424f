/** One node's state and its routing decisions: responsibility, closest preceding
    finger, lookup, removal of a dead peer, and the bounded-retry action router.
    Remote calls are an oracle that answers with a value or an exception. */
module Node {
  import opened Ring
  import opened Fingers

  /** The message of an exception at the root of a cause chain: the file-not-found
      marker string, or any other text. */
  datatype Message = FileNotFoundText | OtherText(text: string)

  /** A Java throwable: whether it is a RemoteException, its message and its cause. */
  datatype Exn = Exn(remote: bool, message: Message, cause: Option<Exn>)

  /** What a call answers: a value, or the exception it throws. */
  datatype Reply<V> = Ok(value: V) | Thrown(e: Exn)

  /** The ways routeToResponsible fails. */
  datatype Failure =
    | RetryExhausted              // "Max routing retries exceeded"
    | SuccessorFailed(cause: Exn) // "Routing failed to successor", wrapping a RemoteException
    | Generic(cause: Exn)         // "Generic error during execution", wrapping anything else
    | Propagated(e: Exn)          // an exception passed on unchanged

  datatype Outcome<V> = Returned(value: V) | Failed(failure: Failure)

  /** r is e itself or sits somewhere below e on its cause chain. */
  ghost predicate OnChain(r: Exn, e: Exn)
    decreases e
  {
    r == e || (e.cause.Some? && OnChain(r, e.cause.value))
  }

  /** The end of an exception's cause chain: the one exception on the chain without a cause. */
  function RootCause(e: Exn): (r: Exn)
    ensures r.cause.None?
    ensures OnChain(r, e)
    decreases e
  {
    match e.cause
    case None => e
    case Some(c) => RootCause(c)
  }

  /** An application-level "file not found": the root cause is a RemoteException carrying
      the file-not-found message, however many wrappers sit above it. */
  predicate IsFileNotFound(e: Exn)
  {
    var root := RootCause(e);
    root.remote && root.message == FileNotFoundText
  }

  /** A remote failure the router reads as peer death. */
  predicate Unreachable<V>(reply: Reply<V>)
  {
    reply.Thrown? && reply.e.remote && !IsFileNotFound(reply.e)
  }

  /** The successor of a node under a membership view: entry 0 of its finger table. */
  function SuccessorOf(self: int, nodes: seq<int>): (r: int)
    requires |nodes| > 0
    ensures r in nodes
  {
    Successor(FingerTarget(self, 0), nodes)
  }

  /** The responsibility test of a node under a membership view. */
  predicate Responsible(self: int, nodes: seq<int>, key: int)
    requires self in nodes
  {
    IsInInterval(key, ComputePredecessor(nodes, self), self)
  }

  /** On a strictly sorted view a node is responsible for key exactly when it is the first
      member at least key (or the minimum, on wrap): the key's owner is unique. */
  lemma ResponsibleIffOwner(self: int, nodes: seq<int>, key: int)
    requires self in nodes && StrictlySorted(nodes)
    ensures Responsible(self, nodes, key) <==> Successor(key, nodes) == self
  {
    var j := IndexOf(nodes, self);
    var p := ComputePredecessor(nodes, self);
    SuccessorOfSorted(key, nodes);
    if |nodes| == 1 {
      assert p == self;
    } else if j > 0 {
      assert p == nodes[j - 1];
      if p < key <= self {
        SuccessorAtIndex(key, nodes, j);
      }
    } else {
      assert p == nodes[|nodes| - 1];
      if key <= self {
        SuccessorAtIndex(key, nodes, 0);
      }
    }
  }

  /** closestPrecedingFinger over a table: scanning from the last entry down, the first
      entry in (self, id]; self when there is none. */
  function ClosestPreceding(table: seq<int>, self: int, id: int): (r: int)
    ensures r == self || r in table
    decreases |table|
  {
    if |table| == 0 then self
    else if IsInInterval(table[|table| - 1], self, id) then table[|table| - 1]
    else ClosestPreceding(table[..|table| - 1], self, id)
  }

  /** ClosestPreceding is the highest-index entry inside (self, id], or self if none is:
      k is that index, -1 when there is none. */
  lemma {:induction false} ClosestPrecedingSpec(table: seq<int>, self: int, id: int) returns (k: int)
    ensures -1 <= k < |table|
    ensures k == -1 ==> ClosestPreceding(table, self, id) == self
                        && forall i :: 0 <= i < |table| ==> !IsInInterval(table[i], self, id)
    ensures k >= 0 ==> ClosestPreceding(table, self, id) == table[k] && IsInInterval(table[k], self, id)
                       && forall j :: k < j < |table| ==> !IsInInterval(table[j], self, id)
    decreases |table|
  {
    if |table| == 0 {
      k := -1;
    } else if IsInInterval(table[|table| - 1], self, id) {
      k := |table| - 1;
    } else {
      var front := table[..|table| - 1];
      k := ClosestPrecedingSpec(front, self, id);
      assert forall i :: 0 <= i < |front| ==> front[i] == table[i];
    }
  }

  /** The next step a node takes for a key. */
  datatype Hop =
    | Local               // responsible: act here
    | ToSuccessor(target: int) // key in (self, successor]
    | ToFinger(target: int)    // the closest preceding finger
    | Fallback(target: int)    // no finger improves: the successor, reached by the finger path

  function Decide(self: int, nodes: seq<int>, key: int): (h: Hop)
    requires self in nodes
    ensures h.ToFinger? || h.Fallback? ==> h.target != self
  {
    if Responsible(self, nodes, key) then Local
    else
      var succ := SuccessorOf(self, nodes);
      if IsInInterval(key, self, succ) then ToSuccessor(succ)
      else
        var next := ClosestPreceding(FingersFor(self, nodes), self, key);
        if next == self then Fallback(succ) else ToFinger(next)
  }

  /** What each kind of hop means: a node acts locally exactly when it is responsible;
      it goes to the successor exactly when the key lies in (self, successor]; a finger
      hop is the highest finger in (self, key], and the fallback is taken only when no
      finger lies there. */
  lemma DecideSpec(self: int, nodes: seq<int>, key: int)
    requires self in nodes
    ensures var h := Decide(self, nodes, key);
            var succ := SuccessorOf(self, nodes);
            var table := FingersFor(self, nodes);
            (h.Local? <==> Responsible(self, nodes, key))
            && (!h.Local? ==> h.target in nodes)
            && (h.ToSuccessor? <==> !Responsible(self, nodes, key) && IsInInterval(key, self, succ))
            && (h.ToSuccessor? || h.Fallback? ==> h.target == succ)
            && (h.Fallback? ==> forall i :: 0 <= i < M ==> !IsInInterval(table[i], self, key) || table[i] == self)
            && (h.ToFinger? ==> exists i :: 0 <= i < M && table[i] == h.target && IsInInterval(h.target, self, key)
                                 && forall j :: i < j < M ==> !IsInInterval(table[j], self, key))
  {
    var k := ClosestPrecedingSpec(FingersFor(self, nodes), self, key);
    FingersAreMembers(self, nodes);
  }

  /** `action.execute(this)`: its value is returned, its exception passes through. */
  function ExecuteLocally<V>(action: Reply<V>): (r: Outcome<V>)
  {
    match action
    case Ok(v) => Returned(v)
    case Thrown(e) => Failed(Propagated(e))
  }

  /** One routing run: the outcome, the membership view afterwards, the peers removed in
      order, and how many times the action ran at this node. */
  datatype Run<V> = Run(outcome: Outcome<V>, nodes: seq<int>, removed: seq<int>, executions: nat)

  /** The successor branch: a value comes back, and any exception fails the call, wrapped
      as a successor failure when it is a RemoteException and as a generic error otherwise. */
  function SuccessorOutcome<V>(reply: Reply<V>): (r: Outcome<V>)
  {
    match reply
    case Ok(v) => Returned(v)
    case Thrown(e) => Failed(if e.remote then SuccessorFailed(e) else Generic(e))
  }

  /** The finger branch when the peer answered or failed in a way that is not peer death:
      a value comes back, a file-not-found passes through, anything else is generic. */
  function FingerOutcome<V>(reply: Reply<V>): (r: Outcome<V>)
    requires !Unreachable(reply)
  {
    match reply
    case Ok(v) => Returned(v)
    case Thrown(e) => if e.remote then Failed(Propagated(e)) else Failed(Generic(e))
  }

  /** The decision rule of a node for one key, as a function of the node's current view.
      Routing only ever hands it views that still contain the node; any other view
      answers Local. */
  function DecisionOf(self: int, key: int): seq<int> -> Hop
  {
    nodes => if self in nodes then Decide(self, nodes, key) else Local
  }

  /** A decision rule that never names self as a finger-path hop. */
  ghost predicate AvoidsSelf(self: int, decide: seq<int> -> Hop)
  {
    forall nodes :: (decide(nodes).ToFinger? || decide(nodes).Fallback?) ==> decide(nodes).target != self
  }

  lemma DecisionAvoidsSelf(self: int, key: int)
    ensures AvoidsSelf(self, DecisionOf(self, key))
  {
    forall nodes | self in nodes
      ensures var h := DecisionOf(self, key)(nodes); h.ToFinger? || h.Fallback? ==> h.target != self
    {
      var h := Decide(self, nodes, key);
    }
  }

  /** The retry loop of routeToResponsible under a decision rule: past the ceiling it
      fails; a Local decision runs `action` here; a successor hop returns what oracle(depth, t)
      answers; a finger-path hop does too, unless the peer is unreachable, in which case the
      peer is dropped from the view and the loop retries one level deeper. */
  function RouteWith<V>(nodes: seq<int>, decide: seq<int> -> Hop, action: Reply<V>,
                        oracle: (nat, int) -> Reply<V>, depth: nat): (r: Run<V>)
    ensures r.executions <= 1
    ensures |r.nodes| <= |nodes|
    decreases MaxRetry + 1 - depth
  {
    if depth > MaxRetry then Run(Failed(RetryExhausted), nodes, [], 0)
    else
      var h := decide(nodes);
      if h.Local? then Run(ExecuteLocally(action), nodes, [], 1)
      else
        var reply := oracle(depth, h.target);
        if h.ToSuccessor? then Run(SuccessorOutcome(reply), nodes, [], 0)
        else if !Unreachable(reply) then Run(FingerOutcome(reply), nodes, [], 0)
        else
          var rest := RouteWith(RemoveFirst(nodes, h.target), decide, action, oracle, depth + 1);
          Run(rest.outcome, rest.nodes, [h.target] + rest.removed, rest.executions)
  }

  /** routeToResponsible of node self for key: the retry loop under the node's own rule. */
  function Route<V>(self: int, nodes: seq<int>, key: int, action: Reply<V>,
                    oracle: (nat, int) -> Reply<V>, depth: nat): (r: Run<V>)
    ensures self in nodes ==> self in r.nodes && self !in r.removed
  {
    RouteKeepsOwnSelf(self, nodes, key, action, oracle, depth);
    RouteWith(nodes, DecisionOf(self, key), action, oracle, depth)
  }

  lemma RouteKeepsOwnSelf<V>(self: int, nodes: seq<int>, key: int, action: Reply<V>,
                             oracle: (nat, int) -> Reply<V>, depth: nat)
    ensures var r := RouteWith(nodes, DecisionOf(self, key), action, oracle, depth);
            self in nodes ==> self in r.nodes && self !in r.removed
  {
    if self in nodes {
      DecisionAvoidsSelf(self, key);
      RouteKeepsSelf(self, nodes, DecisionOf(self, key), action, oracle, depth);
    }
  }

  /** One pass of the retry loop, branch by branch. Past the ceiling the run fails at once.
      Otherwise: a Local decision runs the action once, here, with nothing removed; a
      successor hop returns the successor's value or fails, wrapping a RemoteException as a
      successor failure and anything else as generic, with nothing removed; a finger-path
      hop returns the peer's value, passes a file-not-found on unchanged, or fails generic
      on a non-remote exception, with nothing removed; an unreachable finger-path hop is
      removed first and the loop goes on one level deeper on the repaired view. */
  lemma RouteStep<V>(nodes: seq<int>, decide: seq<int> -> Hop, action: Reply<V>,
                     oracle: (nat, int) -> Reply<V>, depth: nat)
    ensures var r := RouteWith(nodes, decide, action, oracle, depth);
            depth > MaxRetry ==> r == Run(Failed(RetryExhausted), nodes, [], 0)
    ensures var r := RouteWith(nodes, decide, action, oracle, depth);
            depth <= MaxRetry && decide(nodes).Local? ==>
              r.nodes == nodes && r.removed == [] && r.executions == 1
              && (action.Ok? ==> r.outcome == Returned(action.value))
              && (action.Thrown? ==> r.outcome == Failed(Propagated(action.e)))
    ensures var r := RouteWith(nodes, decide, action, oracle, depth);
            var h := decide(nodes);
            depth <= MaxRetry && h.ToSuccessor? ==>
              var reply := oracle(depth, h.target);
              r.nodes == nodes && r.removed == [] && r.executions == 0
              && (reply.Ok? ==> r.outcome == Returned(reply.value))
              && (reply.Thrown? && reply.e.remote ==> r.outcome == Failed(SuccessorFailed(reply.e)))
              && (reply.Thrown? && !reply.e.remote ==> r.outcome == Failed(Generic(reply.e)))
    ensures var r := RouteWith(nodes, decide, action, oracle, depth);
            var h := decide(nodes);
            depth <= MaxRetry && (h.ToFinger? || h.Fallback?) && !Unreachable(oracle(depth, h.target)) ==>
              var reply := oracle(depth, h.target);
              r.nodes == nodes && r.removed == [] && r.executions == 0
              && (reply.Ok? ==> r.outcome == Returned(reply.value))
              && (reply.Thrown? && reply.e.remote ==> IsFileNotFound(reply.e) && r.outcome == Failed(Propagated(reply.e)))
              && (reply.Thrown? && !reply.e.remote ==> r.outcome == Failed(Generic(reply.e)))
    ensures var r := RouteWith(nodes, decide, action, oracle, depth);
            var h := decide(nodes);
            depth <= MaxRetry && (h.ToFinger? || h.Fallback?) && Unreachable(oracle(depth, h.target)) ==>
              var rest := RouteWith(RemoveFirst(nodes, h.target), decide, action, oracle, depth + 1);
              r.removed == [h.target] + rest.removed && r.nodes == rest.nodes
              && r.outcome == rest.outcome && r.executions == rest.executions
  {
  }

  /** Under a node's own rule: a node responsible for the key, below the retry ceiling,
      runs the action right away and keeps its view. */
  lemma RouteActsWhenResponsible<V>(self: int, nodes: seq<int>, key: int, action: Reply<V>,
                                    oracle: (nat, int) -> Reply<V>, depth: nat)
    requires self in nodes && depth <= MaxRetry && Responsible(self, nodes, key)
    ensures var r := Route(self, nodes, key, action, oracle, depth);
            r.nodes == nodes && r.removed == [] && r.executions == 1
            && (action.Ok? ==> r.outcome == Returned(action.value))
            && (action.Thrown? ==> r.outcome == Failed(Propagated(action.e)))
  {
    DecideSpec(self, nodes, key);
    RouteStep(nodes, DecisionOf(self, key), action, oracle, depth);
  }

  /** Under a node's own rule: a finger-path hop that dies is removed from the view exactly
      once, ahead of every later removal, and routing resumes one level deeper from this
      same node on the repaired view. */
  lemma RouteRetriesAfterDeadHop<V>(self: int, nodes: seq<int>, key: int, action: Reply<V>,
                                    oracle: (nat, int) -> Reply<V>, depth: nat)
    requires self in nodes && depth <= MaxRetry
    requires var h := Decide(self, nodes, key); (h.ToFinger? || h.Fallback?) && Unreachable(oracle(depth, h.target))
    ensures var t := Decide(self, nodes, key).target;
            var r := Route(self, nodes, key, action, oracle, depth);
            var rest := Route(self, RemoveFirst(nodes, t), key, action, oracle, depth + 1);
            t != self && r.removed == [t] + rest.removed && r.nodes == rest.nodes
            && r.outcome == rest.outcome
  {
    RouteStep(nodes, DecisionOf(self, key), action, oracle, depth);
  }

  /** Membership only shrinks under routing, by exactly the removed peers, in order. */
  lemma {:induction false} RouteRemovesExactly<V>(nodes: seq<int>, decide: seq<int> -> Hop,
                                                  action: Reply<V>, oracle: (nat, int) -> Reply<V>, depth: nat)
    ensures var r := RouteWith(nodes, decide, action, oracle, depth);
            r.nodes == RemoveAll(nodes, r.removed)
    decreases MaxRetry + 1 - depth
  {
    var h := decide(nodes);
    if depth <= MaxRetry && !h.Local? && !h.ToSuccessor? && Unreachable(oracle(depth, h.target)) {
      var after := RemoveFirst(nodes, h.target);
      RouteRemovesExactly(after, decide, action, oracle, depth + 1);
      var rest := RouteWith(after, decide, action, oracle, depth + 1);
      var removed := [h.target] + rest.removed;
      assert removed[0] == h.target && removed[1..] == rest.removed;
    }
  }

  /** A node whose rule never picks itself as a finger or fallback hop neither removes
      itself nor loses itself from its view. */
  lemma {:induction false} RouteKeepsSelf<V>(self: int, nodes: seq<int>, decide: seq<int> -> Hop,
                                              action: Reply<V>, oracle: (nat, int) -> Reply<V>, depth: nat)
    requires self in nodes && AvoidsSelf(self, decide)
    ensures var r := RouteWith(nodes, decide, action, oracle, depth);
            self in r.nodes && self !in r.removed
    decreases MaxRetry + 1 - depth
  {
    var h := decide(nodes);
    if depth <= MaxRetry && !h.Local? && !h.ToSuccessor? && Unreachable(oracle(depth, h.target)) {
      assert h.target != self;
      var after := RemoveFirst(nodes, h.target);
      RemoveFirstKeeps(nodes, h.target, self);
      RouteKeepsSelf(self, after, decide, action, oracle, depth + 1);
      var rest := RouteWith(after, decide, action, oracle, depth + 1);
      assert RouteWith(nodes, decide, action, oracle, depth).nodes == rest.nodes;
      assert RouteWith(nodes, decide, action, oracle, depth).removed == [h.target] + rest.removed;
    }
  }

  /** An ascending view stays ascending under routing. */
  lemma {:induction false} RouteKeepsSorted<V>(nodes: seq<int>, decide: seq<int> -> Hop, action: Reply<V>,
                                                oracle: (nat, int) -> Reply<V>, depth: nat)
    requires StrictlySorted(nodes)
    ensures StrictlySorted(RouteWith(nodes, decide, action, oracle, depth).nodes)
    decreases MaxRetry + 1 - depth
  {
    var h := decide(nodes);
    if depth <= MaxRetry && !h.Local? && !h.ToSuccessor? && Unreachable(oracle(depth, h.target)) {
      RemoveFirstKeepsSorted(nodes, h.target);
      RouteKeepsSorted(RemoveFirst(nodes, h.target), decide, action, oracle, depth + 1);
    }
  }

  /** The retry ceiling: a run started at depth removes at most MaxRetry + 1 - depth peers. */
  lemma {:induction false} RouteRetryBound<V>(nodes: seq<int>, decide: seq<int> -> Hop, action: Reply<V>,
                                               oracle: (nat, int) -> Reply<V>, depth: nat)
    ensures var r := RouteWith(nodes, decide, action, oracle, depth);
            (depth <= MaxRetry + 1 ==> depth + |r.removed| <= MaxRetry + 1)
            && (depth > MaxRetry ==> r.removed == [])
    decreases MaxRetry + 1 - depth
  {
    var h := decide(nodes);
    if depth <= MaxRetry && !h.Local? && !h.ToSuccessor? && Unreachable(oracle(depth, h.target)) {
      RouteRetryBound(RemoveFirst(nodes, h.target), decide, action, oracle, depth + 1);
    }
  }

  /** A run ends in RetryExhausted exactly when its removals used up every retry. */
  lemma {:induction false} RouteExhaustedIff<V>(nodes: seq<int>, decide: seq<int> -> Hop, action: Reply<V>,
                                                 oracle: (nat, int) -> Reply<V>, depth: nat)
    ensures var r := RouteWith(nodes, decide, action, oracle, depth);
            r.outcome == Failed(RetryExhausted) <==> depth + |r.removed| > MaxRetry
    decreases MaxRetry + 1 - depth
  {
    var h := decide(nodes);
    if depth <= MaxRetry && !h.Local? && !h.ToSuccessor? && Unreachable(oracle(depth, h.target)) {
      RouteExhaustedIff(RemoveFirst(nodes, h.target), decide, action, oracle, depth + 1);
    }
  }

  /** Each removed peer was, in the view of its moment, the finger-path hop, and it failed
      with a transport (not file-not-found) exception at that retry depth. */
  ghost predicate RemovalsJustified<V>(nodes: seq<int>, decide: seq<int> -> Hop, oracle: (nat, int) -> Reply<V>,
                                       depth: nat, removed: seq<int>)
    decreases |removed|
  {
    removed == [] ||
    ((decide(nodes).ToFinger? || decide(nodes).Fallback?) && decide(nodes).target == removed[0]
     && Unreachable(oracle(depth, removed[0]))
     && RemovalsJustified(RemoveFirst(nodes, removed[0]), decide, oracle, depth + 1, removed[1..]))
  }

  /** The router removes a peer only right after that very peer, chosen as the finger-path
      hop of the current view, failed with a transport exception. */
  lemma {:induction false} RouteRemovesOnlyUnreachableHops<V>(nodes: seq<int>, decide: seq<int> -> Hop,
      action: Reply<V>, oracle: (nat, int) -> Reply<V>, depth: nat)
    ensures RemovalsJustified(nodes, decide, oracle, depth, RouteWith(nodes, decide, action, oracle, depth).removed)
    decreases MaxRetry + 1 - depth
  {
    var h := decide(nodes);
    if depth <= MaxRetry && !h.Local? && !h.ToSuccessor? && Unreachable(oracle(depth, h.target)) {
      var t := h.target;
      var after := RemoveFirst(nodes, t);
      RouteRemovesOnlyUnreachableHops(after, decide, action, oracle, depth + 1);
      var rest := RouteWith(after, decide, action, oracle, depth + 1);
      assert ([t] + rest.removed)[1..] == rest.removed;
    }
  }

  /** The action runs at most once, and only where the rule said Local on the final view. */
  lemma {:induction false} RouteExecutesOnlyWhenLocal<V>(nodes: seq<int>, decide: seq<int> -> Hop,
      action: Reply<V>, oracle: (nat, int) -> Reply<V>, depth: nat)
    ensures var r := RouteWith(nodes, decide, action, oracle, depth);
            r.executions <= 1
            && (r.executions == 1 ==> decide(r.nodes).Local? && r.outcome == ExecuteLocally(action))
    decreases MaxRetry + 1 - depth
  {
    var h := decide(nodes);
    if depth <= MaxRetry && !h.Local? && !h.ToSuccessor? && Unreachable(oracle(depth, h.target)) {
      RouteExecutesOnlyWhenLocal(RemoveFirst(nodes, h.target), decide, action, oracle, depth + 1);
    }
  }

  /** Under a node's own rule the action runs there only when the node is responsible for
      the key in its final view; on a consistent (strictly sorted) view it owns the key. */
  lemma RouteExecutesOnlyAtOwner<V>(self: int, nodes: seq<int>, key: int, action: Reply<V>,
                                    oracle: (nat, int) -> Reply<V>, depth: nat)
    requires self in nodes
    ensures var r := Route(self, nodes, key, action, oracle, depth);
            self in r.nodes &&
            (r.executions > 0 ==> r.outcome == ExecuteLocally(action) && Responsible(self, r.nodes, key)
                                  && (StrictlySorted(nodes) ==> Successor(key, r.nodes) == self))
  {
    var decide := DecisionOf(self, key);
    DecisionAvoidsSelf(self, key);
    RouteKeepsSelf(self, nodes, decide, action, oracle, depth);
    RouteExecutesOnlyWhenLocal(nodes, decide, action, oracle, depth);
    var r := Route(self, nodes, key, action, oracle, depth);
    if r.executions > 0 {
      DecideSpec(self, r.nodes, key);
      if StrictlySorted(nodes) {
        RouteKeepsSorted(nodes, decide, action, oracle, depth);
        ResponsibleIffOwner(self, r.nodes, key);
      }
    }
  }

  /** `remote.lookup(id)` seen from the caller: -1 on a RemoteException, any other
      exception rethrown wrapped. */
  function LookupReply(reply: Reply<int>): (r: Outcome<int>)
  {
    match reply
    case Ok(v) => Returned(v)
    case Thrown(e) => if e.remote then Returned(-1) else Failed(Generic(e))
  }

  class ChordNode {
    const nodeId: int
    var allNodes: seq<int>
    const fingerTable: FingerTable
    var predecessor: int

    /** The predecessor is recomputed after every membership change and the finger table
        always equals the one a fresh build from the current membership would give. */
    ghost predicate Valid()
      reads this, fingerTable.fingers
    {
      fingerTable.Valid() && fingerTable.nodeId == nodeId && nodeId in allNodes
      && predecessor == ComputePredecessor(allNodes, nodeId)
      && fingerTable.fingers[..] == FingersFor(nodeId, allNodes)
    }

    /** The source fails in computePredecessor when nodeId is not in the list. */
    constructor (nodeId: int, allNodes: seq<int>)
      requires nodeId in allNodes
      ensures Valid() && fresh(fingerTable.fingers)
      ensures this.nodeId == nodeId && this.allNodes == allNodes
    {
      this.nodeId := nodeId;
      this.allNodes := allNodes;
      fingerTable := new FingerTable(nodeId, allNodes);
      predecessor := ComputePredecessor(allNodes, nodeId);
    }

    /** isResponsible, written as the source writes it; it is the wrap-around interval
        test on (predecessor, nodeId]. */
    predicate IsResponsible(keyId: int)
      reads this
      ensures IsResponsible(keyId) == IsInInterval(keyId, predecessor, nodeId)
    {
      if predecessor < nodeId then keyId > predecessor && keyId <= nodeId
      else keyId > predecessor || keyId <= nodeId
    }

    /** The successor entry of a valid node is the successor of nodeId + 1 in its view. */
    lemma SuccessorEntry()
      requires Valid()
      ensures fingerTable.GetSuccessor() == SuccessorOf(nodeId, allNodes)
      ensures fingerTable.GetSuccessor() in allNodes
    {
      assert fingerTable.fingers[..][0] == fingerTable.fingers[0];
    }

    method ClosestPrecedingFinger(id: int) returns (r: int)
      requires Valid()
      ensures r == ClosestPreceding(fingerTable.fingers[..], nodeId, id)
      ensures r == nodeId || r in fingerTable.fingers[..]
    {
      var fingers := fingerTable.fingers;
      var i := fingers.Length - 1;
      assert fingers[..] == fingers[..i + 1];
      while i >= 0
        invariant -1 <= i < fingers.Length
        invariant ClosestPreceding(fingers[..], nodeId, id) == ClosestPreceding(fingers[..i + 1], nodeId, id)
      {
        assert fingers[..i + 1][..i] == fingers[..i];
        if IsInInterval(fingers[i], nodeId, id) {
          return fingers[i];
        }
        i := i - 1;
      }
      r := nodeId;
    }

    /** lookup: self when responsible, the successor when the key lies in (self, successor]
        or no finger improves, otherwise the remote answer of the closest preceding finger. */
    method Lookup(id: int, remote: int -> Reply<int>) returns (r: Outcome<int>)
      requires Valid()
      ensures Responsible(nodeId, allNodes, id) ==> r == Returned(nodeId)
      ensures !Responsible(nodeId, allNodes, id) && IsInInterval(id, nodeId, SuccessorOf(nodeId, allNodes))
              ==> r == Returned(SuccessorOf(nodeId, allNodes))
      ensures Decide(nodeId, allNodes, id).Fallback? ==> r == Returned(SuccessorOf(nodeId, allNodes))
      ensures Decide(nodeId, allNodes, id).ToFinger? ==>
                var reply := remote(Decide(nodeId, allNodes, id).target);
                (reply.Ok? ==> r == Returned(reply.value))
                && (reply.Thrown? && reply.e.remote ==> r == Returned(-1))
                && (reply.Thrown? && !reply.e.remote ==> r == Failed(Generic(reply.e)))
    {
      SuccessorEntry();
      if IsResponsible(id) {
        return Returned(nodeId);
      }
      var successor := fingerTable.GetSuccessor();
      if IsInInterval(id, nodeId, successor) {
        return Returned(successor);
      }
      var nextNode := ClosestPrecedingFinger(id);
      if nextNode == nodeId {
        return Returned(successor);
      }
      r := LookupReply(remote(nextNode));
    }

    /** checkNodesAndRemove: drop the first occurrence of x, recompute the predecessor,
        repair the entries that pointed at x. */
    method CheckNodesAndRemove(x: int)
      requires Valid() && x != nodeId
      modifies this, fingerTable.fingers
      ensures Valid()
      ensures allNodes == RemoveFirst(old(allNodes), x)
      ensures predecessor == ComputePredecessor(allNodes, nodeId)
      ensures fingerTable.fingers[..] == Repaired(old(fingerTable.fingers[..]), nodeId, x, allNodes)
    {
      var idx := IndexOf(allNodes, x);
      if idx != -1 {
        RemoveAtIndexOf(allNodes, x);
        allNodes := allNodes[..idx] + allNodes[idx + 1..];
      }
      predecessor := ComputePredecessor(allNodes, nodeId);
      RepairMatchesRebuild(nodeId, old(allNodes), x);
      fingerTable.UpdateFingersChecked(x, allNodes);
    }

    /** isFileNotFoundException: walk to the root cause and test it. */
    method IsFileNotFoundException(e: Exn) returns (b: bool)
      ensures b == IsFileNotFound(e)
    {
      var cause := e;
      while cause.cause.Some?
        invariant RootCause(cause) == RootCause(e)
        decreases cause
      {
        cause := cause.cause.value;
      }
      b := cause.remote && cause.message == FileNotFoundText;
    }

    /** routeToResponsible: fail past the retry ceiling, act here when responsible, forward
        to the successor when the key is in (self, successor], otherwise forward along the
        finger path and, on a transport failure, remove that hop and retry one level deeper. */
    method RouteToResponsible<V>(keyId: int, action: Reply<V>, oracle: (nat, int) -> Reply<V>, depth: nat)
      returns (res: Outcome<V>)
      requires Valid()
      modifies this, fingerTable.fingers
      ensures Valid()
      ensures var run := Route(nodeId, old(allNodes), keyId, action, oracle, depth);
              res == run.outcome && allNodes == run.nodes
      decreases MaxRetry + 1 - depth
    {
      if depth > MaxRetry {
        return Failed(RetryExhausted);
      }
      ghost var before := allNodes;
      SuccessorEntry();
      if IsResponsible(keyId) {
        return ExecuteLocally(action);
      }
      var successor := fingerTable.GetSuccessor();
      if IsInInterval(keyId, nodeId, successor) {
        match oracle(depth, successor)
        case Ok(v) => return Returned(v);
        case Thrown(e) => return Failed(if e.remote then SuccessorFailed(e) else Generic(e));
      }
      var nextNode := ClosestPrecedingFinger(keyId);
      if nextNode == nodeId {
        nextNode := successor;
      }
      assert nextNode == Decide(nodeId, allNodes, keyId).target;
      match oracle(depth, nextNode)
      case Ok(v) =>
        return Returned(v);
      case Thrown(e) =>
        if !e.remote {
          return Failed(Generic(e));
        }
        var notFound := IsFileNotFoundException(e);
        if notFound {
          return Failed(Propagated(e));
        }
        CheckNodesAndRemove(nextNode);
        ghost var rest := Route(nodeId, allNodes, keyId, action, oracle, depth + 1);
        assert Route(nodeId, before, keyId, action, oracle, depth).outcome == rest.outcome;
        assert Route(nodeId, before, keyId, action, oracle, depth).nodes == rest.nodes;
        res := RouteToResponsible(keyId, action, oracle, depth + 1);
    }

    /** getResponsibleFiles over a supplied digest index: exactly the entries whose reduced
        key this node is responsible for. */
    method GetResponsibleFiles<P>(index: map<nat, P>) returns (files: map<nat, P>)
      ensures forall key :: key in files <==> key in index && IsResponsible(ReduceKey(key))
      ensures forall key :: key in files ==> files[key] == index[key]
    {
      files := map[];
      var pending := index.Keys;
      while pending != {}
        invariant pending <= index.Keys
        invariant forall key :: key in files <==> key in index && key !in pending && IsResponsible(ReduceKey(key))
        invariant forall key :: key in files ==> files[key] == index[key]
        decreases pending
      {
        var key :| key in pending;
        if IsResponsible(ReduceKey(key)) {
          files := files[key := index[key]];
        }
        pending := pending - {key};
      }
    }
  }
}
