/** The finger table of one node: M routing entries, entry i being the successor of
    (nodeId + 2^i) % ringSize, built once and repaired in place when a node goes away. */
module Fingers {
  import opened Ring

  /** The table the constructor builds from a membership list. */
  function FingersFor(self: int, nodes: seq<int>): (r: seq<int>)
    requires |nodes| > 0
    ensures |r| == M
  {
    seq(M, i requires 0 <= i < M => Successor(FingerTarget(self, i), nodes))
  }

  /** Every entry of a built table is a member of the list it was built from. */
  lemma FingersAreMembers(self: int, nodes: seq<int>)
    requires |nodes| > 0
    ensures forall i :: 0 <= i < M ==> FingersFor(self, nodes)[i] in nodes
  {
    forall i | 0 <= i < M
      ensures FingersFor(self, nodes)[i] in nodes
    {
      var t := Successor(FingerTarget(self, i), nodes);
    }
  }

  /** The table after an incremental repair: only the entries equal to x are recomputed. */
  function Repaired(table: seq<int>, self: int, x: int, nodes: seq<int>): (r: seq<int>)
    requires |nodes| > 0 || x !in table
    ensures |r| == |table|
    ensures forall i :: 0 <= i < |table| && table[i] != x ==> r[i] == table[i]
    ensures |nodes| > 0 ==> forall i :: 0 <= i < |table| && table[i] == x ==> r[i] in nodes
  {
    seq(|table|, i requires 0 <= i < |table| =>
      if table[i] == x then Successor(FingerTarget(self, i), nodes) else table[i])
  }

  /** Removing x from the list cannot change a successor that was not x. */
  lemma {:induction false} FirstAtLeastAfterRemove(id: int, nodes: seq<int>, x: int)
    requires FirstAtLeast(id, nodes) != Some(x)
    ensures FirstAtLeast(id, RemoveFirst(nodes, x)) == FirstAtLeast(id, nodes)
  {
    if nodes != [] {
      if nodes[0] != x && nodes[0] < id {
        FirstAtLeastAfterRemove(id, nodes[1..], x);
        assert RemoveFirst(nodes, x) == [nodes[0]] + RemoveFirst(nodes[1..], x);
        assert ([nodes[0]] + RemoveFirst(nodes[1..], x))[1..] == RemoveFirst(nodes[1..], x);
      }
    }
  }

  lemma SuccessorAfterRemove(id: int, nodes: seq<int>, x: int)
    requires |RemoveFirst(nodes, x)| > 0
    requires Successor(id, nodes) != x
    ensures Successor(id, RemoveFirst(nodes, x)) == Successor(id, nodes)
  {
    FirstAtLeastAfterRemove(id, nodes, x);
    if FirstAtLeast(id, nodes).None? {
      assert nodes[0] != x;
      assert RemoveFirst(nodes, x) == [nodes[0]] + RemoveFirst(nodes[1..], x);
    }
  }

  /** Incremental repair matches a full rebuild: repairing the table built from L, after
      x has been dropped from L, gives the table the constructor would build from the new list. */
  lemma RepairMatchesRebuild(self: int, nodes: seq<int>, x: int)
    requires |RemoveFirst(nodes, x)| > 0
    ensures Repaired(FingersFor(self, nodes), self, x, RemoveFirst(nodes, x))
            == FingersFor(self, RemoveFirst(nodes, x))
  {
    var after := RemoveFirst(nodes, x);
    forall i | 0 <= i < M
      ensures Repaired(FingersFor(self, nodes), self, x, after)[i] == FingersFor(self, after)[i]
    {
      if Successor(FingerTarget(self, i), nodes) != x {
        SuccessorAfterRemove(FingerTarget(self, i), nodes, x);
      }
    }
  }

  /** On a duplicate-free list the repaired table no longer mentions the removed id. */
  lemma RepairForgetsRemoved(self: int, nodes: seq<int>, x: int)
    requires NoDup(nodes) && |RemoveFirst(nodes, x)| > 0
    ensures x !in Repaired(FingersFor(self, nodes), self, x, RemoveFirst(nodes, x))
  {
    RepairMatchesRebuild(self, nodes, x);
    RemoveFirstNoDup(nodes, x);
  }

  /** With a single member, every entry is that member. */
  lemma SingleMemberTable(self: int, v: int)
    ensures FingersFor(self, [v]) == seq(M, _ => v)
  {
  }

  class FingerTable {
    const nodeId: int
    const m: nat := M
    const fingers: array<int>

    ghost predicate Valid()
    {
      fingers.Length == m
    }

    /** Builds entry i as the successor of (nodeId + 2^i) % ringSize. The source's
        `orElse(nodes.getFirst())` fails on an empty list, hence the precondition. */
    constructor (nodeId: int, allNodeIds: seq<int>)
      requires |allNodeIds| > 0
      ensures Valid() && this.nodeId == nodeId && fresh(fingers)
      ensures fingers[..] == FingersFor(nodeId, allNodeIds)
    {
      this.nodeId := nodeId;
      var table := new int[M];
      for i := 0 to M
        invariant forall j :: 0 <= j < i ==> table[j] == Successor(FingerTarget(nodeId, j), allNodeIds)
      {
        table[i] := Successor(FingerTarget(nodeId, i), allNodeIds);
      }
      fingers := table;
    }

    function GetSuccessor(): (r: int)
      reads fingers
      requires Valid()
      ensures r in fingers[..]
    {
      fingers[0]
    }

    /** The indices whose entry is x, ascending, without the -1 padding of the scratch array. */
    method GetEntries(x: int) returns (r: seq<int>)
      requires Valid()
      ensures forall k :: 0 <= k < |r| ==> 0 <= r[k] < m && fingers[r[k]] == x
      ensures forall k, l :: 0 <= k < l < |r| ==> r[k] < r[l]
      ensures forall i :: 0 <= i < m && fingers[i] == x ==> i in r
    {
      var temp := new int[m](_ => -1);
      var count := 0;
      ghost var found: seq<int> := [];
      for i := 0 to m
        invariant 0 <= count <= i && temp[..count] == found
        invariant forall k :: 0 <= k < |found| ==> 0 <= found[k] < i && fingers[found[k]] == x
        invariant forall k, l :: 0 <= k < l < |found| ==> found[k] < found[l]
        invariant forall j :: 0 <= j < i && fingers[j] == x ==> j in found
      {
        if x == fingers[i] {
          temp[count] := i;
          found := found + [i];
          count := count + 1;
          assert temp[..count] == found;
        }
      }
      r := temp[..count];
    }

    /** Recomputes, against the given list, exactly the entries that currently equal x. */
    method UpdateFingersChecked(x: int, allNodeIds: seq<int>)
      requires Valid()
      requires |allNodeIds| > 0 || x !in fingers[..]
      modifies fingers
      ensures fingers[..] == Repaired(old(fingers[..]), nodeId, x, allNodeIds)
    {
      var indexes := GetEntries(x);
      ghost var before := fingers[..];
      for k := 0 to |indexes|
        invariant forall i :: 0 <= i < m ==>
          fingers[i] == if i in indexes[..k] then Successor(FingerTarget(nodeId, i), allNodeIds) else before[i]
      {
        var index := indexes[k];
        assert before[index] == x;
        assert index !in indexes[..k];
        fingers[index] := Successor(FingerTarget(nodeId, index), allNodeIds);
      }
      assert indexes[..|indexes|] == indexes;
    }
  }
}
