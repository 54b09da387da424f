/** The RMI-facing server of one node: entry points that reduce a file's digest to a ring
    key and start routing at depth 0, and the handling of a leave notice that travels
    around the ring. The remote call that forwards the notice is returned as a message. */
module Server {
  import opened Ring
  import opened Fingers
  import opened Node

  /** A `notifyLeave(leaving, origin)` call addressed to node `to`. */
  datatype LeaveMsg = LeaveMsg(to: int, leaving: int, origin: int)

  /** A node's membership view after handling a leave notice, and the notice it forwards. */
  datatype LeaveStepResult = LeaveStepResult(nodes: seq<int>, forward: Option<LeaveMsg>)

  /** notifyLeave as written: the first receiver (origin == leaving) takes over as origin;
      any later receiver stops when the origin is its successor as read BEFORE the leaving
      node is removed; the notice goes on to the successor read AFTER the removal. */
  function LeaveStep(self: int, nodes: seq<int>, leaving: int, origin: int): (r: LeaveStepResult)
    requires self in nodes && leaving != self
    ensures self in r.nodes
  {
    RemoveFirstKeeps(nodes, leaving, self);
    var after := RemoveFirst(nodes, leaving);
    var succ := SuccessorOf(self, after);
    if origin == leaving then LeaveStepResult(after, Some(LeaveMsg(succ, leaving, self)))
    else if origin == SuccessorOf(self, nodes) then LeaveStepResult(after, None)
    else LeaveStepResult(after, Some(LeaveMsg(succ, leaving, origin)))
  }

  /** notifyLeave with the stop test made on the view after the removal (and after the
      first receiver took over as origin): stop exactly when the next hop is the origin. */
  function LeaveStepFixed(self: int, nodes: seq<int>, leaving: int, origin: int): (r: LeaveStepResult)
    requires self in nodes && leaving != self
    ensures self in r.nodes
  {
    RemoveFirstKeeps(nodes, leaving, self);
    var after := RemoveFirst(nodes, leaving);
    var succ := SuccessorOf(self, after);
    var from := if origin == leaving then self else origin;
    LeaveStepResult(after, if from == succ then None else Some(LeaveMsg(succ, leaving, from)))
  }

  /** Both versions drop the leaving node from the view and forward, if at all, to the new
      successor, naming the same leaving node; on a duplicate-free view the leaving node
      is gone from the view and is never sent its own notice. */
  lemma LeaveStepForwardsToNewSuccessor(self: int, nodes: seq<int>, leaving: int, origin: int)
    requires self in nodes && leaving != self && NoDup(nodes)
    ensures var r := LeaveStep(self, nodes, leaving, origin);
            leaving !in r.nodes
            && (r.forward.Some? ==> r.forward.value.to == SuccessorOf(self, r.nodes)
                                    && r.forward.value.to != leaving && r.forward.value.leaving == leaving)
    ensures var r := LeaveStepFixed(self, nodes, leaving, origin);
            leaving !in r.nodes
            && (r.forward.Some? ==> r.forward.value.to == SuccessorOf(self, r.nodes)
                                    && r.forward.value.to != leaving && r.forward.value.leaving == leaving)
  {
    RemoveFirstNoDup(nodes, leaving);
  }

  /** The per-call rules of notifyLeave as written: the first receiver always forwards,
      naming itself as origin; a later receiver keeps the origin and stops exactly when
      the origin is its successor in the view it had before the removal. */
  lemma LeaveStepOriginRules(self: int, nodes: seq<int>, leaving: int, origin: int)
    requires self in nodes && leaving != self
    ensures var r := LeaveStep(self, nodes, leaving, origin);
            (origin == leaving ==> r.forward.Some? && r.forward.value.origin == self)
            && (origin != leaving ==> (r.forward.None? <==> origin == SuccessorOf(self, nodes))
                                      && (r.forward.Some? ==> r.forward.value.origin == origin))
  {
  }

  /** The reply of the getFile and deleteFile actions at the responsible node: the indexed
      entry for the digest, or a RemoteException carrying the file-not-found text. */
  function FileActionReply<P>(index: map<nat, P>, hash: nat): (r: Reply<P>)
    ensures r.Ok? <==> hash in index
    ensures r.Ok? ==> r.value == index[hash]
    ensures r.Thrown? ==> IsFileNotFound(r.e) && !Unreachable(r)
  {
    if hash in index then Ok(index[hash]) else Thrown(Exn(true, FileNotFoundText, None))
  }

  /** The reply of the deleteFile action at the responsible node, given whether the file
      system deleted the indexed file: no value when the digest is indexed and the deletion
      went through, and otherwise a RemoteException carrying the file-not-found text. */
  function DeleteActionReply<P>(index: map<nat, P>, hash: nat, deleted: bool): (r: Reply<()>)
    ensures r.Ok? <==> hash in index && deleted
    ensures r.Thrown? ==> IsFileNotFound(r.e) && !Unreachable(r)
  {
    if hash in index && deleted then Ok(()) else Thrown(Exn(true, FileNotFoundText, None))
  }

  class ChordRemoteServer {
    const chordNode: ChordNode

    constructor (chordNode: ChordNode)
      ensures this.chordNode == chordNode
    {
      this.chordNode := chordNode;
    }

    /** routeToResponsible as a remote entry point: always routing at depth 0. */
    method RouteToResponsible<V>(keyId: int, action: Reply<V>, oracle: (nat, int) -> Reply<V>)
      returns (res: Outcome<V>)
      requires chordNode.Valid()
      modifies chordNode, chordNode.fingerTable.fingers
      ensures chordNode.Valid()
      ensures var run := Route(chordNode.nodeId, old(chordNode.allNodes), keyId, action, oracle, 0);
              res == run.outcome && chordNode.allNodes == run.nodes
    {
      res := chordNode.RouteToResponsible(keyId, action, oracle, 0);
    }

    /** getFile, uploadFile, updateFile and deleteFile: reduce the digest of the file name
        with BigInteger.mod into [0, ringSize) and route the action from depth 0. */
    method RouteFileRequest<V>(hash: nat, action: Reply<V>, oracle: (nat, int) -> Reply<V>)
      returns (res: Outcome<V>)
      requires chordNode.Valid()
      modifies chordNode, chordNode.fingerTable.fingers
      ensures chordNode.Valid()
      ensures var run := Route(chordNode.nodeId, old(chordNode.allNodes), ReduceKey(hash), action, oracle, 0);
              res == run.outcome && chordNode.allNodes == run.nodes
    {
      var keyId := ReduceKey(hash);
      res := chordNode.RouteToResponsible(keyId, action, oracle, 0);
    }

    /** notifyLeave(nodeId, originId): the origin rewrite or stop test against the current
        successor, then the removal of the leaving node, then the notice to the new successor. */
    method NotifyLeave(nodeId: int, originId: int) returns (forward: Option<LeaveMsg>)
      requires chordNode.Valid() && nodeId != chordNode.nodeId
      modifies chordNode, chordNode.fingerTable.fingers
      ensures chordNode.Valid()
      ensures var step := LeaveStep(chordNode.nodeId, old(chordNode.allNodes), nodeId, originId);
              chordNode.allNodes == step.nodes && forward == step.forward
    {
      var toSend := true;
      var origin := originId;
      chordNode.SuccessorEntry();
      if originId == nodeId {
        origin := chordNode.fingerTable.nodeId;
      } else if originId == chordNode.fingerTable.GetSuccessor() {
        toSend := false;
      }
      chordNode.CheckNodesAndRemove(nodeId);
      chordNode.SuccessorEntry();
      var successor := chordNode.fingerTable.GetSuccessor();
      if toSend {
        forward := Some(LeaveMsg(successor, nodeId, origin));
      } else {
        forward := None;
      }
    }
  }
}
