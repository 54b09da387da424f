/** Ring arithmetic of the Chord ring: the fixed capacity, wrap-around intervals,
    and the successor and predecessor of a position over a membership list.
    Node ids and keys are Java `int`s; lists are the `List<Integer>` views. */
module Ring {

  datatype Option<T> = None | Some(value: T)

  /** Capacity of the ring, hard-coded in FingerTable. */
  const RingSize: int := 40

  /** Number of finger entries. The source computes ceil(log2 RingSize) in floating
      point; for RingSize 40 that is 6 (see MIsBitsOfRingSize). */
  const M: nat := 6

  /** Retry ceiling of the action router (ChordNode.MAX_RETRY). */
  const MaxRetry: nat := 10

  function Pow2(i: nat): (r: nat)
    ensures r >= 1
  {
    if i == 0 then 1 else 2 * Pow2(i - 1)
  }

  /** M is the least number of bits that can address every ring position. */
  lemma MIsBitsOfRingSize()
    ensures Pow2(M - 1) < RingSize <= Pow2(M)
    ensures forall k: nat :: k < M ==> Pow2(k) < RingSize
  {
    assert Pow2(0) == 1 && Pow2(1) == 2 && Pow2(2) == 4 && Pow2(3) == 8;
    assert Pow2(4) == 16 && Pow2(5) == 32 && Pow2(6) == 64;
  }

  /** Java's `%` on `int`: it truncates toward zero, so the remainder takes the sign
      of the dividend (Dafny's `%` is Euclidean). */
  function JavaRem(a: int, b: int): (r: int)
    requires b > 0
    ensures a >= 0 ==> 0 <= r < b
    ensures a < 0 ==> -b < r <= 0
    ensures (a - r) % b == 0
  {
    RemainderDifference(a, b);
    RemainderDifference(-a, b);
    if a >= 0 then a % b else -((-a) % b)
  }

  /** Subtracting its Euclidean remainder leaves a multiple of b. */
  lemma RemainderDifference(a: int, b: int)
    requires b > 0
    ensures (a - a % b) % b == 0
    ensures (-(a - a % b)) % b == 0
  {
    var q := a / b;
    assert a - a % b == q * b;
    MultipleHasNoRemainder(q, b);
    assert -(a - a % b) == (-q) * b;
    MultipleHasNoRemainder(-q, b);
  }

  /** A multiple of b leaves no remainder. */
  lemma MultipleHasNoRemainder(q: int, b: int)
    requires b > 0
    ensures (q * b) % b == 0
  {
    var d := (q * b) / b;
    var m := (q * b) % b;
    assert q * b == d * b + m;
    assert m == (q - d) * b;
    MultipleBounds(q - d, b);
  }

  /** A non-zero multiple of b is at least b away from zero. */
  lemma MultipleBounds(k: int, b: int)
    requires b > 0
    ensures k >= 1 ==> k * b >= b
    ensures k <= -1 ==> k * b <= -b
  {
  }

  /** The ring position that finger i of node `self` starts from: (self + 2^i) % ringSize. */
  function FingerTarget(self: int, i: nat): (r: int)
    ensures self + Pow2(i) >= 0 ==> 0 <= r < RingSize
  {
    JavaRem(self + Pow2(i), RingSize)
  }

  /** A file's key: its (non-negative) digest reduced with BigInteger.mod. */
  function ReduceKey(hash: nat): (r: int)
    ensures 0 <= r < RingSize
    ensures hash < RingSize ==> r == hash
  {
    hash % RingSize
  }

  /** Membership of `id` in the clockwise arc (start, end]; the whole ring when start == end. */
  predicate IsInInterval(id: int, start: int, end: int)
  {
    if start < end then id > start && id <= end
    else if start > end then id > start || id <= end
    else true
  }

  /** The arc is half-open: between two distinct ends it holds the end but not the start,
      and with equal ends it is the whole ring. */
  lemma IntervalEnds(id: int, start: int, end: int)
    ensures start != end ==> IsInInterval(end, start, end) && !IsInInterval(start, start, end)
    ensures start == end ==> IsInInterval(id, start, end)
  {
  }

  /** Number of clockwise steps from a to b on the ring. */
  function ClockwiseSteps(a: int, b: int): (r: int)
    ensures 0 <= r < RingSize
  {
    (b - a) % RingSize
  }

  lemma StepsValue(a: int, b: int)
    requires 0 <= a < RingSize && 0 <= b < RingSize
    ensures ClockwiseSteps(a, b) == if b >= a then b - a else b - a + RingSize
  {
  }

  /** Reference reading of IsInInterval on ring positions: id is reached from start
      after at least one and at most as many clockwise steps as end is. */
  lemma InIntervalIsClockwiseArc(id: int, start: int, end: int)
    requires 0 <= id < RingSize && 0 <= start < RingSize && 0 <= end < RingSize
    ensures IsInInterval(id, start, end) <==>
            (start == end || 0 < ClockwiseSteps(start, id) <= ClockwiseSteps(start, end))
  {
    StepsValue(start, id);
    StepsValue(start, end);
  }

  /** Two distinct nodes split the ring: every id lies in exactly one of (p, n] and (n, p]. */
  lemma AdjacentArcsPartition(p: int, n: int, id: int)
    requires p != n
    ensures IsInInterval(id, p, n) != IsInInterval(id, n, p)
  {
  }

  ghost predicate Sorted(s: seq<int>)
  {
    forall i, j :: 0 <= i < j < |s| ==> s[i] <= s[j]
  }

  ghost predicate StrictlySorted(s: seq<int>)
  {
    forall i, j :: 0 <= i < j < |s| ==> s[i] < s[j]
  }

  ghost predicate NoDup(s: seq<int>)
  {
    forall i, j :: 0 <= i < j < |s| ==> s[i] != s[j]
  }

  ghost predicate InRange(s: seq<int>)
  {
    forall i :: 0 <= i < |s| ==> 0 <= s[i] < RingSize
  }

  /** `stream().filter(n -> n >= id).findFirst()`: the first element, in list order, that is at least id. */
  function FirstAtLeast(id: int, nodes: seq<int>): (r: Option<int>)
    ensures r.Some? ==> r.value in nodes && r.value >= id
  {
    if nodes == [] then None
    else if nodes[0] >= id then Some(nodes[0])
    else FirstAtLeast(id, nodes[1..])
  }

  /** FirstAtLeast finds nothing exactly when every member is below id, and otherwise
      finds the member at the least index that reaches id. */
  lemma {:induction false} FirstAtLeastSpec(id: int, nodes: seq<int>)
    ensures FirstAtLeast(id, nodes).None? <==> forall j :: 0 <= j < |nodes| ==> nodes[j] < id
    ensures forall j :: 0 <= j < |nodes| && nodes[j] >= id && (forall i :: 0 <= i < j ==> nodes[i] < id)
                        ==> FirstAtLeast(id, nodes) == Some(nodes[j])
    ensures FirstAtLeast(id, nodes).Some? ==>
            exists j :: 0 <= j < |nodes| && nodes[j] == FirstAtLeast(id, nodes).value
                        && forall i :: 0 <= i < j ==> nodes[i] < id
  {
    if nodes != [] && nodes[0] < id {
      var t := nodes[1..];
      FirstAtLeastSpec(id, t);
      assert forall j :: 1 <= j < |nodes| ==> t[j - 1] == nodes[j];
      if FirstAtLeast(id, t).Some? {
        var j :| 0 <= j < |t| && t[j] == FirstAtLeast(id, t).value && forall i :: 0 <= i < j ==> t[i] < id;
        assert nodes[j + 1] == t[j];
        assert forall i :: 0 <= i < j + 1 ==> i == 0 || nodes[i] == t[i - 1];
      }
    }
  }

  /** FingerTable.successor: the first member at least id, else (wrapping) the first member. */
  function Successor(id: int, nodes: seq<int>): (r: int)
    requires |nodes| > 0
    ensures r in nodes
  {
    match FirstAtLeast(id, nodes)
    case Some(v) => v
    case None => nodes[0]
  }

  /** Successor answers a member at least id whenever there is one, and the first
      member when there is none. */
  lemma SuccessorSpec(id: int, nodes: seq<int>)
    requires |nodes| > 0
    ensures (exists j :: 0 <= j < |nodes| && nodes[j] >= id) ==> Successor(id, nodes) >= id
    ensures (forall j :: 0 <= j < |nodes| ==> nodes[j] < id) ==> Successor(id, nodes) == nodes[0]
  {
    FirstAtLeastSpec(id, nodes);
  }

  /** Successor's answer when the first member reaching id sits at index j. */
  lemma SuccessorAtIndex(id: int, nodes: seq<int>, j: int)
    requires 0 <= j < |nodes| && nodes[j] >= id
    requires forall i :: 0 <= i < j ==> nodes[i] < id
    ensures Successor(id, nodes) == nodes[j]
  {
    FirstAtLeastSpec(id, nodes);
  }

  /** On a sorted list, Successor is the smallest member at least id, or the minimum on wrap. */
  lemma SuccessorOfSorted(id: int, nodes: seq<int>)
    requires |nodes| > 0 && Sorted(nodes)
    ensures (exists j :: 0 <= j < |nodes| && nodes[j] >= id) ==>
            Successor(id, nodes) >= id &&
            forall j :: 0 <= j < |nodes| && nodes[j] >= id ==> Successor(id, nodes) <= nodes[j]
    ensures (forall j :: 0 <= j < |nodes| ==> nodes[j] < id) ==>
            Successor(id, nodes) == nodes[0] && forall j :: 0 <= j < |nodes| ==> nodes[0] <= nodes[j]
  {
    FirstAtLeastSpec(id, nodes);
  }

  /** List.indexOf: the index of the first occurrence of x, or -1. */
  function IndexOf(s: seq<int>, x: int): (r: int)
    ensures -1 <= r < |s|
    ensures r == -1 <==> x !in s
    ensures r >= 0 ==> s[r] == x
  {
    if s == [] then -1
    else if s[0] == x then 0
    else
      var k := IndexOf(s[1..], x);
      if k == -1 then -1 else k + 1
  }

  /** IndexOf finds the first occurrence: x does not occur before the returned index. */
  lemma {:induction false} IndexOfFirst(s: seq<int>, x: int)
    requires x in s
    ensures x !in s[..IndexOf(s, x)]
  {
    if s[0] != x {
      IndexOfFirst(s[1..], x);
      var k := IndexOf(s[1..], x);
      assert s[..k + 1] == [s[0]] + s[1..][..k];
    }
  }

  /** ChordNode.computePredecessor: the member before self, or the last member when self is first. */
  function ComputePredecessor(nodes: seq<int>, self: int): (r: int)
    requires self in nodes
    ensures r in nodes
  {
    var idx := IndexOf(nodes, self);
    if idx == 0 then nodes[|nodes| - 1] else nodes[idx - 1]
  }

  /** On a strictly sorted list the predecessor is the largest member below self, or the
      maximum when self is the minimum (a single member is its own predecessor). */
  lemma PredecessorOfSorted(nodes: seq<int>, self: int)
    requires self in nodes && StrictlySorted(nodes)
    ensures var p := ComputePredecessor(nodes, self);
            ((exists j :: 0 <= j < |nodes| && nodes[j] < self) ==>
               p < self && forall j :: 0 <= j < |nodes| && nodes[j] < self ==> nodes[j] <= p)
            && ((forall j :: 0 <= j < |nodes| ==> nodes[j] >= self) ==>
               forall j :: 0 <= j < |nodes| ==> nodes[j] <= p)
  {
    var idx := IndexOf(nodes, self);
  }

  /** `allNodes.remove(allNodes.indexOf(x))` when x is present: drop the first occurrence of x. */
  function RemoveFirst(s: seq<int>, x: int): (r: seq<int>)
    ensures x !in s ==> r == s
    ensures |r| <= |s|
  {
    if s == [] then []
    else if s[0] == x then
      assert s == [s[0]] + s[1..];
      s[1..]
    else
      assert s == [s[0]] + s[1..];
      [s[0]] + RemoveFirst(s[1..], x)
  }

  /** Removal takes out x and nothing else: the survivors are the old members, and
      every member other than x survives. */
  lemma {:induction false} RemoveFirstMembers(s: seq<int>, x: int)
    ensures forall y :: y in RemoveFirst(s, x) ==> y in s
    ensures forall y :: y != x && y in s ==> y in RemoveFirst(s, x)
    ensures x in s ==> |RemoveFirst(s, x)| == |s| - 1
  {
    if s != [] {
      assert s == [s[0]] + s[1..];
      if s[0] != x {
        RemoveFirstMembers(s[1..], x);
      }
    }
  }

  /** A member other than x survives the removal of x. */
  lemma RemoveFirstKeeps(s: seq<int>, x: int, y: int)
    requires y in s && y != x
    ensures y in RemoveFirst(s, x)
  {
    RemoveFirstMembers(s, x);
  }

  /** Removing at the index found by IndexOf is RemoveFirst. */
  lemma {:induction false} RemoveAtIndexOf(s: seq<int>, x: int)
    requires x in s
    ensures var i := IndexOf(s, x); s[..i] + s[i + 1..] == RemoveFirst(s, x)
  {
    if s[0] != x {
      RemoveAtIndexOf(s[1..], x);
      var k := IndexOf(s[1..], x);
      assert s[..k + 1] == [s[0]] + s[1..][..k];
      assert s[k + 2..] == s[1..][k + 1..];
    }
  }

  /** Removal keeps the relative order of the remaining ids, so an ascending list stays ascending. */
  lemma {:induction false} RemoveFirstKeepsSorted(s: seq<int>, x: int)
    requires StrictlySorted(s)
    ensures StrictlySorted(RemoveFirst(s, x))
  {
    if s != [] && s[0] != x {
      var t := s[1..];
      RemoveFirstKeepsSorted(t, x);
      RemoveFirstMembers(t, x);
      var r := RemoveFirst(t, x);
      var u := [s[0]] + r;
      assert RemoveFirst(s, x) == u;
      forall i, j | 0 <= i < j < |u| ensures u[i] < u[j] {
        assert u[j] == r[j - 1] && r[j - 1] in t;
        if i > 0 { assert u[i] == r[i - 1]; }
      }
    }
  }

  /** A list without duplicates loses x entirely and stays without duplicates. */
  lemma {:induction false} RemoveFirstNoDup(s: seq<int>, x: int)
    requires NoDup(s)
    ensures NoDup(RemoveFirst(s, x)) && x !in RemoveFirst(s, x)
  {
    if s != [] {
      var t := s[1..];
      assert s[0] !in t;
      assert NoDup(t) by {
        forall i, j | 0 <= i < j < |t| ensures t[i] != t[j] {
          assert t[i] == s[i + 1] && t[j] == s[j + 1];
        }
      }
      if s[0] != x {
        RemoveFirstNoDup(t, x);
        RemoveFirstMembers(t, x);
        var r := RemoveFirst(t, x);
        var u := [s[0]] + r;
        assert RemoveFirst(s, x) == u;
        assert s[0] !in r;
        forall i, j | 0 <= i < j < |u| ensures u[i] != u[j] {
          assert u[j] == r[j - 1];
          if i > 0 {
            assert u[i] == r[i - 1];
          }
        }
      }
    }
  }

  lemma RemoveFirstInRange(s: seq<int>, x: int)
    requires InRange(s)
    ensures InRange(RemoveFirst(s, x))
  {
    RemoveFirstMembers(s, x);
    var r := RemoveFirst(s, x);
    assert forall i :: 0 <= i < |r| ==> r[i] in s;
  }

  lemma StrictlySortedNoDup(s: seq<int>)
    requires StrictlySorted(s)
    ensures NoDup(s)
  {
  }

  /** Removing one id after another, as the router does across its retries. */
  function RemoveAll(s: seq<int>, xs: seq<int>): (r: seq<int>)
    decreases |xs|
  {
    if xs == [] then s else RemoveAll(RemoveFirst(s, xs[0]), xs[1..])
  }
}
