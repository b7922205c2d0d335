/** The solver's assignment for the single vehicle, as the renderers see it.

    `next[i]` is the value of `NextVar(i)` for each routing index i below N,
    the number of places; index 0 is the vehicle's start (the depot) and
    index N is its end. A closed tour starts at 0, passes through every place
    exactly once and then reaches the end index. */
module Routing {

  /** Every successor is a routing index: a node index or the end index. */
  predicate ValidSuccessors(next: seq<int>)
  {
    forall i :: 0 <= i < |next| ==> 0 <= next[i] <= |next|
  }

  /** The routing index reached after k steps from the start. Once the end
      index is reached the walk stays there. */
  function Orbit(next: seq<int>, k: nat): (index: nat)
    requires ValidSuccessors(next)
    ensures index <= |next|
  {
    if k == 0 then 0
    else
      var previous := Orbit(next, k - 1);
      if previous == |next| then previous else next[previous]
  }

  /** A single route from the start through the nodes to the end: the first
      N steps stay on the nodes and step N reaches the end index. The N nodes
      are then pairwise distinct (TourIsDistinct). */
  predicate ClosedTour(next: seq<int>)
  {
    && |next| >= 1
    && ValidSuccessors(next)
    && (forall k :: 0 <= k < |next| ==> Orbit(next, k) < |next|)
    && Orbit(next, |next|) == |next|
  }

  /** A successor array the solver returns for a solved instance. */
  type Tour = next: seq<int> | ClosedTour(next) witness [1]

  /** The walk reaches the end index after exactly N steps. */
  lemma EndReachedAfterTour(next: Tour, k: nat)
    requires k <= |next| && Orbit(next, k) == |next|
    ensures k == |next|
  {
  }

  /** Before the end index is reached the walk is at a node, and its next
      step follows the successor array. */
  lemma StepInsideTour(next: Tour, k: nat)
    requires k <= |next| && Orbit(next, k) != |next|
    ensures k < |next| && Orbit(next, k) < |next|
    ensures Orbit(next, k + 1) == next[Orbit(next, k)]
  {
  }

  /** The walk is deterministic: two steps at the same index stay together. */
  lemma {:induction false} OrbitShift(next: seq<int>, i: nat, j: nat, t: nat)
    requires ValidSuccessors(next) && Orbit(next, i) == Orbit(next, j)
    ensures Orbit(next, i + t) == Orbit(next, j + t)
  {
    if t > 0 {
      OrbitShift(next, i, j, t - 1);
      assert Orbit(next, i + t) == (if Orbit(next, i + t - 1) == |next| then |next| else next[Orbit(next, i + t - 1)]);
    }
  }

  /** No node is visited twice: a repeated node would make the walk cycle
      among the nodes forever and never reach the end index at step N. */
  lemma TourIsDistinct(next: Tour, j: nat, k: nat)
    requires j < k < |next|
    ensures Orbit(next, j) != Orbit(next, k)
  {
    if Orbit(next, j) == Orbit(next, k) {
      OrbitShift(next, j, k, |next| - k);
      assert false;
    }
  }

  /** The nodes visited in the first k steps. */
  function Visited(next: seq<int>, k: nat): set<int>
    requires ValidSuccessors(next)
  {
    set j | 0 <= j < k :: Orbit(next, j)
  }

  lemma {:induction false} VisitedSize(next: Tour, k: nat)
    requires k <= |next|
    ensures |Visited(next, k)| == k
  {
    if k > 0 {
      VisitedSize(next, k - 1);
      assert Visited(next, k) == Visited(next, k - 1) + {Orbit(next, k - 1)};
      forall j | 0 <= j < k - 1
        ensures Orbit(next, j) != Orbit(next, k - 1)
      {
        TourIsDistinct(next, j, k - 1);
      }
      assert Orbit(next, k - 1) !in Visited(next, k - 1);
    }
  }

  /** The node indices 0 .. n - 1. */
  function Nodes(n: nat): (nodes: set<int>)
    ensures forall v :: v in nodes <==> 0 <= v < n
    ensures |nodes| == n
  {
    if n == 0 then {} else Nodes(n - 1) + {n - 1}
  }

  /** The tour is a permutation of the nodes: every node 0 .. N - 1 is
      visited, and (by TourIsDistinct) no node twice. */
  lemma TourVisitsEveryNode(next: Tour)
    ensures Visited(next, |next|) == Nodes(|next|)
    ensures forall v :: 0 <= v < |next| ==> v in Visited(next, |next|)
  {
    var n := |next|;
    var visited, nodes := Visited(next, n), Nodes(n);
    VisitedSize(next, n);
    assert visited <= nodes;
    assert visited * nodes == visited;
    assert |nodes - visited| == 0;
  }

  /** The successor array that visits the nodes in index order: i goes to
      i + 1, and the last node goes to the end index. */
  function InOrder(n: nat): (next: seq<int>)
  {
    seq(n, i => i + 1)
  }

  lemma {:induction false} InOrderOrbit(n: nat, k: nat)
    requires k <= n
    ensures ValidSuccessors(InOrder(n)) && Orbit(InOrder(n), k) == k
  {
    if k > 0 {
      InOrderOrbit(n, k - 1);
    }
  }

  /** Visiting the nodes in index order is a closed tour for every N >= 1. */
  lemma InOrderIsClosedTour(n: nat)
    requires n >= 1
    ensures ClosedTour(InOrder(n))
    ensures forall k :: 0 <= k <= n ==> Orbit(InOrder(n), k) == k
  {
    forall k | 0 <= k <= n
      ensures Orbit(InOrder(n), k) == k
    {
      InOrderOrbit(n, k);
    }
  }
}
