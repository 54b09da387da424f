# Chord ring routing core (ChordFileSystem)

This project is a Dafny model of the ring protocol of a small Chord-style distributed
file store. A fixed ring of 40 positions holds peer nodes. Each node keeps:

- a membership list;
- a predecessor;
- a 6-entry finger table, whose entry i is the successor of `(nodeId + 2^i) % 40`.

A file is owned by the node responsible for its key, which is its digest reduced modulo 40.

The model covers the following operations:

- Building the finger table, and repairing it incrementally when a peer is removed.
- The wrap-around interval test and the responsibility test.
- The closest preceding finger.
- `lookup`.
- `checkNodesAndRemove`: drop a peer, recompute the predecessor, repair the table.
- The generic action router `routeToResponsible`: bounded retries, removal of unreachable
  hops, and pass-through of file-not-found errors.
- The server entry points that reduce keys and route from depth 0.
- The leave notice `notifyLeave`. Its effect on a whole ring is modelled as a flood.

Files and modules:

- `ring.dfy` (`Ring`): the constants, Java's truncating `%`, the interval test, the
  `successor` stream search, `indexOf`, `computePredecessor` and list removal.
- `finger_table.dfy` (`Fingers`): the table a build produces and the table a repair
  produces (`FingersFor`, `Repaired`), and the class `FingerTable` over an `array<int>`.
- `chord_node.dfy` (`Node`): exceptions with cause chains, and the remote reply as an
  oracle. It holds the per-key decision `Decide` and the retry loop `RouteWith` / `Route`
  as value-level specifications, and the class `ChordNode` whose methods are proved
  against them.
- `remote_server.dfy` (`Server`): `notifyLeave` as one step (`LeaveStep`) and corrected
  (`LeaveStepFixed`), and the class `ChordRemoteServer`.
- `leave_flood.dfy` (`Flood`): the notice delivered node to node, each node holding its
  own view, with theorems about whole floods on a consistent ring.

How remote calls are modelled:

- A remote call is a parameter of the method that makes it. Routing gets an oracle
  `(depth, target) -> Reply`; `lookup` gets `target -> Reply`.
- The action a routed request carries is the `Reply` it gives when run at the responsible
  node.
- `notifyLeave` returns the notice it would forward instead of sending it.

Points where the code departs from textbook Chord, from its own comments, or from
itself; the model follows the code:

- `closestPrecedingFinger` tests the half-open arc (self, id] with `isInInterval`, where
  textbook Chord uses the open arc (self, id).
- In the successor branch of `routeToResponsible`, every `RemoteException` is wrapped as
  "Routing failed to successor", including a file-not-found. Only the finger branch
  passes a file-not-found on unchanged, as the code at ChordNode.java:203-205 does. The
  two branches treat the same reply differently.
- The comments of `notifyLeave` (ChordRemoteServer.java:166-171) say the first receiver
  becomes the one that stops the notice, once the origin is a receiver's successor. As
  written, the notice goes round the ring twice (see Findings).

## Model

| member | source | states |
|---|---|---|
| Ring.MIsBitsOfRingSize | src/main/java/it/baddy/uni/chord/FingerTable.java:21-26 | the fixed table size 6 is the least number of bits that addresses ring size 40, so `ceil(log2 40)` is 6 |
| Ring.JavaRem | src/main/java/it/baddy/uni/chord/FingerTable.java:29 | Java `%` on int: the result differs from the dividend by a multiple of b, lies in [0, b) for a non-negative dividend and in (-b, 0] for a negative one |
| Ring.FingerTarget | src/main/java/it/baddy/uni/chord/FingerTable.java:29 | the start of finger i, `(nodeId + 2^i) % ringSize`, is a ring position whenever the sum is non-negative |
| Ring.ReduceKey | src/main/java/it/baddy/uni/rmi/server/ChordRemoteServer.java:41-42 | BigInteger.mod by the ring size lands in [0, 40) and leaves a digest already below 40 unchanged |
| Ring.IntervalEnds | src/main/java/it/baddy/uni/chord/ChordNode.java:64-76 | isInInterval is the half-open arc: between distinct ends it holds the end and not the start, and with equal ends it is the whole ring |
| Ring.InIntervalIsClockwiseArc | src/main/java/it/baddy/uni/chord/ChordNode.java:64-76 | on ring positions, isInInterval(id, start, end) holds exactly when id is one to ClockwiseSteps(start, end) clockwise steps past start, or start == end (the whole ring) |
| Ring.AdjacentArcsPartition | src/main/java/it/baddy/uni/chord/ChordNode.java:64-76 | two distinct nodes p and n split the ring: every id is in exactly one of (p, n] and (n, p] |
| Ring.FirstAtLeast | src/main/java/it/baddy/uni/chord/FingerTable.java:35-37 | `filter(n >= id).findFirst()` only ever yields a member of the list that is at least id |
| Ring.FirstAtLeastSpec | src/main/java/it/baddy/uni/chord/FingerTable.java:35-37 | `filter(n >= id).findFirst()` finds nothing iff every member is below id, and otherwise yields the member at the least index reaching id |
| Ring.SuccessorSpec | src/main/java/it/baddy/uni/chord/FingerTable.java:34-39 | successor answers a member at least id when one exists, and the first member of the list when none does |
| Ring.Successor | src/main/java/it/baddy/uni/chord/FingerTable.java:34-39 | successor always answers a member of the (non-empty) list |
| Ring.SuccessorOfSorted | src/main/java/it/baddy/uni/chord/FingerTable.java:34-39 | on a sorted list successor is the smallest member at least id, or, on wrap-around, the minimum |
| Ring.IndexOf | src/main/java/it/baddy/uni/chord/ChordNode.java:156-157 | indexOf is -1 exactly when x is absent, and otherwise an index holding x |
| Ring.IndexOfFirst | src/main/java/it/baddy/uni/chord/ChordNode.java:156 | indexOf returns the first occurrence: x does not occur before it |
| Ring.ComputePredecessor | src/main/java/it/baddy/uni/chord/ChordNode.java:32-36 | the predecessor is a member of the list |
| Ring.PredecessorOfSorted | src/main/java/it/baddy/uni/chord/ChordNode.java:32-36 | on a strictly sorted list the predecessor is the largest member below self, or the maximum when self is the minimum |
| Ring.RemoveFirst | src/main/java/it/baddy/uni/chord/ChordNode.java:155-160 | removing an absent id leaves the list as it was, and removal never lengthens the list |
| Ring.RemoveFirstMembers | src/main/java/it/baddy/uni/chord/ChordNode.java:155-160 | removing x keeps every other member, adds nothing, and shortens the list by one when x was present |
| Ring.RemoveAtIndexOf | src/main/java/it/baddy/uni/chord/ChordNode.java:156-159 | `remove(indexOf(x))` drops exactly the first occurrence of x |
| Ring.RemoveFirstKeepsSorted | src/main/java/it/baddy/uni/chord/ChordNode.java:155-160 | a strictly ascending membership list stays strictly ascending after a removal |
| Ring.RemoveFirstNoDup | src/main/java/it/baddy/uni/chord/ChordNode.java:155-160 | on a duplicate-free list the removed id is gone entirely and the list stays duplicate-free |
| Fingers.FingersAreMembers | src/main/java/it/baddy/uni/chord/FingerTable.java:28-30 | every entry of a built table is a member of the list it was built from |
| Fingers.FingersFor | src/main/java/it/baddy/uni/chord/FingerTable.java:28-30 | a built table has exactly m = 6 entries |
| Fingers.Repaired | src/main/java/it/baddy/uni/chord/FingerTable.java:101-110 | a repair keeps every entry that was not x, keeps the length, and turns every entry that was x into a member of the new list |
| Fingers.RepairMatchesRebuild | src/main/java/it/baddy/uni/chord/FingerTable.java:101-110 | repairing the entries equal to x, after dropping x from the list, gives the table a fresh build from the new list would give |
| Fingers.RepairForgetsRemoved | src/main/java/it/baddy/uni/chord/FingerTable.java:101-110 | on a duplicate-free list the repaired table no longer mentions the removed id |
| Fingers.SingleMemberTable | src/main/java/it/baddy/uni/chord/FingerTable.java:28-30 | with a single member every finger is that member |
| Fingers.FingerTable.constructor | src/main/java/it/baddy/uni/chord/FingerTable.java:21-31 | the table holds 6 entries, entry i being the successor of (nodeId + 2^i) % 40 in the given list |
| Fingers.FingerTable.GetEntries | src/main/java/it/baddy/uni/chord/FingerTable.java:113-126 | the returned indices are exactly the entries equal to x, in ascending order, within the table |
| Fingers.FingerTable.GetSuccessor | src/main/java/it/baddy/uni/chord/FingerTable.java:41-43 | the successor is one of the table's entries (Node.ChordNode.SuccessorEntry gives which one) |
| Fingers.FingerTable.UpdateFingersChecked | src/main/java/it/baddy/uni/chord/FingerTable.java:101-110 | the new table is the repair of the old one: entries equal to x recomputed against the list, all others unchanged |
| Node.RootCause | src/main/java/it/baddy/uni/chord/ChordNode.java:220-223 | the root cause lies on the exception's cause chain and has no cause itself, so it is the end of that chain |
| Node.ChordNode.IsFileNotFoundException | src/main/java/it/baddy/uni/chord/ChordNode.java:219-227 | true exactly when the root cause is a RemoteException with the file-not-found message |
| Node.ResponsibleIffOwner | src/main/java/it/baddy/uni/chord/ChordNode.java:44-50 | on a strictly sorted view a node is responsible for a key exactly when it is that key's successor, so every key has one owner |
| Node.ChordNode.IsResponsible | src/main/java/it/baddy/uni/chord/ChordNode.java:44-50 | the two-case responsibility test is the wrap-around interval test on (predecessor, nodeId] |
| Node.SuccessorOf | src/main/java/it/baddy/uni/chord/ChordNode.java:180 | a node's successor under a view is a member of that view |
| Node.ChordNode.SuccessorEntry | src/main/java/it/baddy/uni/chord/FingerTable.java:41-43 | on a consistent node, `getSuccessor()` is entry 0 of the table, the successor of nodeId + 1 in the node's view, and a member of it |
| Node.ClosestPrecedingSpec | src/main/java/it/baddy/uni/chord/ChordNode.java:52-62 | the answer is the highest-index finger inside (self, id], no later finger being inside; or self when no finger is inside |
| Node.ClosestPreceding | src/main/java/it/baddy/uni/chord/ChordNode.java:52-62 | the closest preceding finger is self or one of the table's entries |
| Node.ChordNode.ClosestPrecedingFinger | src/main/java/it/baddy/uni/chord/ChordNode.java:52-62 | the downward scan returns what ClosestPreceding specifies, which is self or one of the fingers |
| Node.Decide | src/main/java/it/baddy/uni/chord/ChordNode.java:175-196 | a finger hop or fallback never targets the node itself |
| Node.DecideSpec | src/main/java/it/baddy/uni/chord/ChordNode.java:175-196 | local iff responsible; to the successor iff not responsible and the key is in (self, successor]; a finger hop is the highest finger in (self, key]; the fallback is the successor and happens only when no finger other than self is there |
| Node.ChordNode.Lookup | src/main/java/it/baddy/uni/chord/ChordNode.java:121-153 | self when responsible; the successor when the key is in (self, successor] or no finger improves; otherwise the remote answer of the closest preceding finger: its value, -1 on a RemoteException, a wrapped error on any other exception |
| Node.ChordNode.CheckNodesAndRemove | src/main/java/it/baddy/uni/chord/ChordNode.java:155-167 | the list loses the first occurrence of x; the predecessor is recomputed; the table is the repair of the old one, and it still equals a fresh build from the new list |
| Node.RouteWith | src/main/java/it/baddy/uni/chord/ChordNode.java:169-217 | a routing run executes the action at this node at most once and never grows the view |
| Node.Route | src/main/java/it/baddy/uni/chord/ChordNode.java:169-217 | a node routing under its own rule stays in its view and never removes itself |
| Node.RouteStep | src/main/java/it/baddy/uni/chord/ChordNode.java:170-216 | each branch of one pass: past the ceiling, retries exhausted; Local runs the action once with nothing removed, returning its value or passing its exception on; a successor hop returns the value or fails as successor failure (RemoteException) or generic, nothing removed; a finger-path hop returns the value, passes a file-not-found on, or fails generic, nothing removed; an unreachable finger-path hop is removed first and the run continues at depth + 1 on the repaired view |
| Node.RouteActsWhenResponsible | src/main/java/it/baddy/uni/chord/ChordNode.java:175-178 | a node responsible for the key below the retry ceiling runs the action once, in place, with its view unchanged |
| Node.RouteRetriesAfterDeadHop | src/main/java/it/baddy/uni/chord/ChordNode.java:198-212 | when the finger-path hop dies, that hop (never the node itself) is the first peer removed, and the rest of the run is the node's own routing from depth + 1 on the repaired view |
| Node.RouteRemovesExactly | src/main/java/it/baddy/uni/chord/ChordNode.java:209-212 | the final view is the initial view with the removed peers dropped one after another, in order |
| Node.RouteKeepsSelf | src/main/java/it/baddy/uni/chord/ChordNode.java:193-212 | a node that never picks itself as a hop stays in its own view and is never removed |
| Node.RouteKeepsSorted | src/main/java/it/baddy/uni/chord/ChordNode.java:209-212 | an ascending view stays ascending across retries |
| Node.RouteRetryBound | src/main/java/it/baddy/uni/chord/ChordNode.java:170-172 | a run started at depth d removes at most 11 - d peers, and none past the ceiling |
| Node.RouteExhaustedIff | src/main/java/it/baddy/uni/chord/ChordNode.java:170-172 | the run fails with retries exhausted exactly when its removals took the depth past 10 |
| Node.RouteRemovesOnlyUnreachableHops | src/main/java/it/baddy/uni/chord/ChordNode.java:198-212 | each removed peer was the finger-path hop of the view at that moment and failed with a transport (not file-not-found) exception at that depth |
| Node.RouteExecutesOnlyWhenLocal | src/main/java/it/baddy/uni/chord/ChordNode.java:175-178 | the action runs at this node at most once per run, and only when the decision on the final view is local |
| Node.RouteExecutesOnlyAtOwner | src/main/java/it/baddy/uni/chord/ChordNode.java:169-217 | under a node's own rule, when the action runs there, the node is still in its view and responsible for the key; on a sorted view it is the key's owner |
| Node.ChordNode.constructor | src/main/java/it/baddy/uni/chord/ChordNode.java:24-29 | the node holds the list, a table equal to a fresh build, and the predecessor computed from the list |
| Node.ChordNode.RouteToResponsible | src/main/java/it/baddy/uni/chord/ChordNode.java:169-217 | the recursive method returns the outcome of Route, leaves the membership of Route's final view, and keeps predecessor and table consistent with it |
| Node.ChordNode.GetResponsibleFiles | src/main/java/it/baddy/uni/chord/ChordNode.java:103-115 | a digest is kept exactly when it is indexed and the node is responsible for its reduced key, and it keeps its indexed file |
| Server.LeaveStepOriginRules | src/main/java/it/baddy/uni/rmi/server/ChordRemoteServer.java:165-183 | the first receiver always forwards, naming itself origin; a later receiver keeps the origin and stops exactly when the origin is its successor before the removal |
| Server.LeaveStep | src/main/java/it/baddy/uni/rmi/server/ChordRemoteServer.java:163-184 | notifyLeave as written keeps the receiver in its own view |
| Server.LeaveStepFixed | src/main/java/it/baddy/uni/rmi/server/ChordRemoteServer.java:163-184 | the corrected notifyLeave keeps the receiver in its own view (its other rules are in Server.LeaveStepForwardsToNewSuccessor) |
| Server.LeaveStepForwardsToNewSuccessor | src/main/java/it/baddy/uni/rmi/server/ChordRemoteServer.java:175-183 | the leaving id leaves the view, and any forwarded notice goes to the successor in the new view, never to the leaving node, and names the same leaving node |
| Server.ChordRemoteServer.NotifyLeave | src/main/java/it/baddy/uni/rmi/server/ChordRemoteServer.java:163-184 | the new membership and the forwarded notice are those of LeaveStep on the old view, and the node stays consistent |
| Server.ChordRemoteServer.RouteToResponsible | src/main/java/it/baddy/uni/rmi/server/ChordRemoteServer.java:26-29 | a remote routing request is Route from depth 0 |
| Server.ChordRemoteServer.RouteFileRequest | src/main/java/it/baddy/uni/rmi/server/ChordRemoteServer.java:41-51 | a file request routes the reduced key from depth 0 |
| Server.FileActionReply | src/main/java/it/baddy/uni/rmi/server/ChordRemoteServer.java:45-51 | at the owner, getFile answers the indexed file when the digest is indexed, and otherwise throws a file-not-found RemoteException that the router never reads as peer death |
| Server.DeleteActionReply | src/main/java/it/baddy/uni/rmi/server/ChordRemoteServer.java:97-107 | at the owner, deleteFile succeeds exactly when the digest is indexed and the deletion went through, and otherwise throws a file-not-found RemoteException that the router never reads as peer death |
| Flood.Deliver | src/main/java/it/baddy/uni/rmi/server/ChordRemoteServer.java:179-183 | a flood makes at most as many deliveries as its fuel allows |
| Flood.DeliverFuelAndFirst | src/main/java/it/baddy/uni/rmi/server/ChordRemoteServer.java:179-183 | a flood runs out of fuel only after using all of it, and its first receiver is the addressee of the first notice |
| Flood.Leave | src/main/java/it/baddy/uni/rmi/server/ChordRemoteServer.java:131-134 | a leave flood starts at the leaving node's successor |
| Flood.AsWrittenLaterHop | src/main/java/it/baddy/uni/rmi/server/ChordRemoteServer.java:169-183 | as written, no later receiver of the first round stops: each relays to the next one, and the leaver's predecessor sends the notice back to the first receiver |
| Flood.FixedLaterHop | src/main/java/it/baddy/uni/rmi/server/ChordRemoteServer.java:169-183 | corrected, each later receiver relays to the next one and the leaver's predecessor stops |
| Flood.AsWrittenFloodVisitsEachTwice | src/main/java/it/baddy/uni/rmi/server/ChordRemoteServer.java:163-184 | on a consistent ring with at least two nodes, the flood as written terminates after visiting every remaining node twice, clockwise from the leaver's successor, and every view then lacks the leaving id |
| Flood.FixedFloodVisitsEachOnce | src/main/java/it/baddy/uni/rmi/server/ChordRemoteServer.java:163-184 | corrected, the flood terminates after visiting every remaining node exactly once, clockwise from the leaver's successor, and every view then equals the list without the leaving id |
| Flood.DoubleFloodExample | src/main/java/it/baddy/uni/rmi/server/ChordRemoteServer.java:131-134 | ring {1, 2, 4} with node 4 leaving: as written the notice reaches 1, 2, 1, 2; corrected it reaches 1, 2 |

## Left out

- Transport: RMI registry lookup and connection are left out. A remote call is an oracle parameter.
- Server.FileActionReply and Server.DeleteActionReply: model only the replies of the get
  and delete actions at the owner; reading and deleting the file are left to the file
  system, whose success is a parameter of the delete reply. The upload and update
  actions only write files; their reply (null, or the file system's created flag) is
  the action `Reply` a caller supplies.
- Actions: the closures that routed requests carry (reading, writing, updating and
  deleting files under /data) are left out. An action is the `Reply` it produces.
- Hashing: the SHA-1 file-name digest and the FileUtils index are left out. A digest is a
  `nat`, and the index is a map parameter.
- `controlledLeave`: its file handoff to the successor and `System.exit` are left out.
  Only its first notice `(myId, myId)` to the successor is modelled, as `Flood.Leave`.
- Output and entry points: console printing, `print`/`printRemote`/`printResponsibleKeys`,
  the `Main` entry point and the command line are left out. Getters such as `getNodeId`
  and `getPredecessor` are plain field reads in the model.
- The server's `lookup` delegation is not modelled. It only calls `ChordNode.lookup`, which is modelled.
- M: `Math.ceil(Math.log(ringSize) / Math.log(2))` is floating point. M is the constant 6,
  justified by `MIsBitsOfRingSize`.
- Ring.FingerTarget: does not model the 32-bit wrap-around of `nodeId + (1 << i)`. Node
  ids are ring positions, so the sum stays far below 2^31.
- Concurrency: handlers on one node run concurrently in the source. Each call is modelled
  as atomic, and the flood delivers one notice at a time.
- Flood.Leave: bounds the number of deliveries by a fuel parameter. The theorems assume
  enough fuel for the round trips they describe, so a flood that never ends is not
  represented.
- Flood.FixedFloodVisitsEachOnce and Flood.AsWrittenFloodVisitsEachTwice: state floods
  only for consistent rings, meaning strictly ascending ring positions, every node
  starting from the same list, and at least two nodes.
- Handler calls the source would crash on are not followed. These are a notice to a node
  absent from its own view, or one naming the receiver itself as leaving. Such a call
  ends the flood as `Undeliverable`.
- Fingers.FingerTable.constructor: requires a non-empty list. The source calls `getFirst`
  eagerly in `successor`, which throws on an empty list.
- Node.ChordNode.constructor: requires a list that contains the node. The source throws
  otherwise, in `get(-2)` inside `computePredecessor`.
- Node.ChordNode.CheckNodesAndRemove and Server.ChordRemoteServer.NotifyLeave: require
  that the removed id is not the node's own. In the source, removing itself leaves
  `computePredecessor` calling `get(-2)`, which throws.

- Node.RouteWith and Node.RouteExecutesOnlyWhenLocal: count only executions at the
  routing node. An execution inside a remote hop is part of the oracle's answer. When a
  hop runs the action but its reply comes back as a `RemoteException`, the hop is
  dropped (ChordNode.java:206-209) and the retry (:212) can run the action at a second
  node, so across nodes the router is at-least-once, not at-most-once.

## Findings

| source | as written | input that shows it | evidently intended | confidence | as-written member | corrected member |
|---|---|---|---|---|---|---|
| src/main/java/it/baddy/uni/rmi/server/ChordRemoteServer.java:172-173 | the stop test compares the origin with the receiver's successor read before the leaving node is removed, so the leaver's predecessor still sees the leaving node and forwards the notice back to the first receiver; the notice goes round the ring a second time | ring {1, 2, 4}, node 4 leaves: notices reach 1, 2, 1, 2 | each remaining node handles the notice once, the flood stopping at the leaver's predecessor | not executed | Flood.AsWrittenFloodVisitsEachTwice (step: Server.LeaveStep; example: Flood.DoubleFloodExample) | Flood.FixedFloodVisitsEachOnce (step: Server.LeaveStepFixed) |
