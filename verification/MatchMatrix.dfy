/** The edge matrix of an unordered match: which element satisfies which matcher. */
module MatchMatrices {
  import GraphCounter

  /** A bipartite graph as a value: left nodes are elements, right nodes are matchers. */
  datatype Graph = Graph(lhs: nat, rhs: nat, edges: set<(nat, nat)>)

  ghost predicate WellFormed(g: Graph) {
    forall e :: e in g.edges ==> e.0 < g.lhs && e.1 < g.rhs
  }

  function SpaceIndex(ilhs: nat, irhs: nat, rhs: nat): nat {
    ilhs * rhs + irhs
  }

  lemma SpaceIndexInRange(ilhs: nat, irhs: nat, lhs: nat, rhs: nat)
    requires ilhs < lhs && irhs < rhs
    ensures 0 <= SpaceIndex(ilhs, irhs, rhs) < lhs * rhs
  {
    var rows := lhs - ilhs - 1;
    assert rows * rhs >= 0;
    assert lhs * rhs == (ilhs + 1 + rows) * rhs == ilhs * rhs + rhs + rows * rhs;
  }

  lemma NextRow(ilhs: nat, rhs: nat)
    ensures SpaceIndex(ilhs, rhs, rhs) == SpaceIndex(ilhs + 1, 0, rhs)
  {
  }

  /** Distinct coordinates occupy distinct cells of the flattened matrix. */
  lemma SpaceIndexInjective(l0: nat, r0: nat, l1: nat, r1: nat, rhs: nat)
    requires r0 < rhs && r1 < rhs
    requires SpaceIndex(l0, r0, rhs) == SpaceIndex(l1, r1, rhs)
    ensures l0 == l1 && r0 == r1
  {
    if l0 < l1 {
      SpaceIndexInRange(l0, r0, l1, rhs);
    } else if l1 < l0 {
      SpaceIndexInRange(l1, r1, l0, rhs);
    }
  }

  /** Every cell belongs to some coordinates. */
  lemma {:induction false} SpaceIndexSurjective(k: nat, lhs: nat, rhs: nat) returns (l: nat, r: nat)
    requires k < lhs * rhs
    ensures l < lhs && r < rhs && SpaceIndex(l, r, rhs) == k
  {
    assert lhs > 0;
    assert (lhs - 1) * rhs == lhs * rhs - rhs;
    if k < (lhs - 1) * rhs {
      l, r := SpaceIndexSurjective(k, lhs - 1, rhs);
    } else {
      l, r := lhs - 1, k - (lhs - 1) * rhs;
    }
  }

  /** The graph that the cells of a matrix describe. */
  ghost function GraphOf(lhs: nat, rhs: nat, bits: seq<bool>): (g: Graph)
    requires |bits| == lhs * rhs
    ensures g.lhs == lhs && g.rhs == rhs && WellFormed(g)
    ensures forall l: nat, r: nat {:trigger (l, r)} :: l < lhs && r < rhs ==>
              SpaceIndex(l, r, rhs) < |bits| && ((l, r) in g.edges <==> bits[SpaceIndex(l, r, rhs)])
  {
    assert forall l: nat, r: nat {:trigger SpaceIndex(l, r, rhs)} ::
        l < lhs && r < rhs ==> SpaceIndex(l, r, rhs) < |bits| by {
      forall l: nat, r: nat | l < lhs && r < rhs ensures SpaceIndex(l, r, rhs) < |bits| {
        SpaceIndexInRange(l, r, lhs, rhs);
      }
    }
    Graph(lhs, rhs, set l: nat, r: nat | l < lhs && r < rhs && bits[SpaceIndex(l, r, rhs)] :: (l, r))
  }

  /** Different cells describe different graphs. */
  lemma GraphOfInjective(lhs: nat, rhs: nat, a: seq<bool>, b: seq<bool>)
    requires |a| == |b| == lhs * rhs && GraphOf(lhs, rhs, a) == GraphOf(lhs, rhs, b)
    ensures a == b
  {
    hide GraphOf;
    forall k | 0 <= k < |a| ensures a[k] == b[k] {
      var l, r := SpaceIndexSurjective(k, lhs, rhs);
      var e := (l, r);
      assert e in GraphOf(lhs, rhs, a).edges <==> a[SpaceIndex(l, r, rhs)];
    }
  }

  /** Every graph is described by some cells. */
  lemma GraphOfSurjective(g: Graph) returns (bits: seq<bool>)
    requires WellFormed(g)
    ensures |bits| == g.lhs * g.rhs && GraphOf(g.lhs, g.rhs, bits) == g
  {
    hide SpaceIndex;
    bits := seq(g.lhs * g.rhs, k requires 0 <= k < g.lhs * g.rhs =>
                  exists l: nat, r: nat :: l < g.lhs && r < g.rhs && SpaceIndex(l, r, g.rhs) == k && (l, r) in g.edges);
    forall l: nat, r: nat | l < g.lhs && r < g.rhs
      ensures SpaceIndex(l, r, g.rhs) < |bits| && (bits[SpaceIndex(l, r, g.rhs)] <==> (l, r) in g.edges)
    {
      SpaceIndexInRange(l, r, g.lhs, g.rhs);
      var k := SpaceIndex(l, r, g.rhs);
      if bits[k] {
        var l', r' :| 0 <= l' < g.lhs && 0 <= r' < g.rhs && SpaceIndex(l', r', g.rhs) == k && (l', r') in g.edges;
        SpaceIndexInjective(l, r, l', r', g.rhs);
      }
    }
    assert forall e :: e in GraphOf(g.lhs, g.rhs, bits).edges <==> e in g.edges;
  }

  /** Stepping from the empty matrix meets every graph of its shape exactly once before it starts again. */
  lemma EachGraphOnce(g: Graph) returns (k: nat)
    requires WellFormed(g)
    ensures var n := g.lhs * g.rhs;
      && k < GraphCounter.Pow2(n)
      && GraphOf(g.lhs, g.rhs, GraphCounter.GraphAfter(n, k)) == g
      && forall j: nat ::
           j < GraphCounter.Pow2(n) && GraphOf(g.lhs, g.rhs, GraphCounter.GraphAfter(n, j)) == g ==> j == k
  {
    hide GraphOf, GraphCounter.GraphAfter, GraphCounter.Value, GraphCounter.Pow2;
    var n := g.lhs * g.rhs;
    var bits := GraphOfSurjective(g);
    GraphCounter.EveryGraphExactlyOnce(n);
    k := GraphCounter.Value(bits);
    forall j: nat | j < GraphCounter.Pow2(n) && GraphOf(g.lhs, g.rhs, GraphCounter.GraphAfter(n, j)) == g
      ensures j == k
    {
      GraphOfInjective(g.lhs, g.rhs, GraphCounter.GraphAfter(n, j), GraphCounter.GraphAfter(n, k));
      assert !(j < k) && !(k < j);
    }
  }

  class MatchMatrix {
    const numElements: nat
    const numMatchers: nat
    const matched: array<bool>

    ghost predicate Valid() {
      matched.Length == numElements * numMatchers
    }

    constructor (elements: nat, matchers: nat)
      ensures Valid() && fresh(matched)
      ensures numElements == elements && numMatchers == matchers
      ensures matched[..] == seq(elements * matchers, _ => false)
      ensures Value() == Graph(elements, matchers, {})
    {
      numElements, numMatchers := elements, matchers;
      matched := new bool[elements * matchers](_ => false);
      new;
      assert matched[..] == seq(elements * matchers, _ => false);
      forall l: nat, r: nat | l < numElements && r < numMatchers ensures !HasEdge(l, r) {
        SpaceIndexInRange(l, r, numElements, numMatchers);
      }
    }

    predicate HasEdge(ilhs: nat, irhs: nat)
      requires Valid() && ilhs < numElements && irhs < numMatchers
      reads matched
    {
      SpaceIndexInRange(ilhs, irhs, numElements, numMatchers);
      matched[SpaceIndex(ilhs, irhs, numMatchers)]
    }

    /** The matrix read as a bipartite graph. */
    ghost function Value(): (g: Graph)
      requires Valid()
      reads matched
      ensures g.lhs == numElements && g.rhs == numMatchers && WellFormed(g)
      ensures forall l: nat, r: nat :: l < numElements && r < numMatchers ==> (HasEdge(l, r) <==> (l, r) in g.edges)
    {
      Graph(numElements, numMatchers,
            set l: nat, r: nat | l < numElements && r < numMatchers && HasEdge(l, r) :: (l, r))
    }

    /** The graph is the one its cells describe, so NextGraph steps through graphs as it steps through cells. */
    lemma ValueIsItsCells()
      requires Valid()
      ensures Value() == GraphOf(numElements, numMatchers, matched[..])
    {
      var g := GraphOf(numElements, numMatchers, matched[..]);
      forall l: nat, r: nat ensures (l, r) in Value().edges <==> (l, r) in g.edges {
        var e := (l, r);
        if l < numElements && r < numMatchers { SpaceIndexInRange(l, r, numElements, numMatchers); }
      }
    }

    /** Sets or clears exactly one edge. */
    method SetEdge(ilhs: nat, irhs: nat, b: bool)
      requires Valid() && ilhs < numElements && irhs < numMatchers
      modifies matched
      ensures Value() == old(Value()).(edges := if b then old(Value()).edges + {(ilhs, irhs)}
                                                else old(Value()).edges - {(ilhs, irhs)})
    {
      SpaceIndexInRange(ilhs, irhs, numElements, numMatchers);
      matched[SpaceIndex(ilhs, irhs, numMatchers)] := b;
      forall l: nat, r: nat | l < numElements && r < numMatchers
        ensures HasEdge(l, r) == if l == ilhs && r == irhs then b else old(HasEdge(l, r))
      {
        SpaceIndexInRange(l, r, numElements, numMatchers);
        if SpaceIndex(l, r, numMatchers) == SpaceIndex(ilhs, irhs, numMatchers) {
          SpaceIndexInjective(l, r, ilhs, irhs, numMatchers);
        }
      }
    }

    /** Treats the matrix as a binary number and adds one in place; false when that leaves it empty. */
    method NextGraph() returns (more: bool)
      requires Valid()
      modifies matched
      ensures (matched[..], more) == GraphCounter.Increment(old(matched[..]))
    {
      ghost var bits := matched[..];
      ghost var k := 0;
      for ilhs := 0 to numElements
        invariant k == SpaceIndex(ilhs, 0, numMatchers)
        invariant forall i :: 0 <= i < matched.Length ==> matched[i] == (i >= k && bits[i])
        invariant forall i :: 0 <= i < k && i < |bits| ==> bits[i]
      {
        for irhs := 0 to numMatchers
          invariant k == SpaceIndex(ilhs, irhs, numMatchers)
          invariant forall i :: 0 <= i < matched.Length ==> matched[i] == (i >= k && bits[i])
          invariant forall i :: 0 <= i < k && i < |bits| ==> bits[i]
        {
          SpaceIndexInRange(ilhs, irhs, numElements, numMatchers);
          if !matched[SpaceIndex(ilhs, irhs, numMatchers)] {
            matched[SpaceIndex(ilhs, irhs, numMatchers)] := true;
            GraphCounter.IncrementAt(bits, matched[..], k);
            return true;
          }
          matched[SpaceIndex(ilhs, irhs, numMatchers)] := false;
          k := k + 1;
        }
        NextRow(ilhs, numMatchers);
      }
      GraphCounter.IncrementClearsOnes(bits, |bits|);
      assert matched[..] == GraphCounter.Empty(|bits|);
      return false;
    }
  }
}
