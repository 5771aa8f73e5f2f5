/** Deciding an unordered match: pair every matcher with an element of its own. */
module UnorderedMatch {
  import opened MatchMatrices
  import opened BipartiteMatching

  /** f gives every matcher an element that satisfies it, no element twice. */
  ghost predicate IsPairing(g: Graph, f: seq<nat>) {
    && |f| == g.rhs
    && (forall r: nat :: r < |f| ==> (f[r], r) in g.edges)
    && (forall i, j :: 0 <= i < j < |f| ==> f[i] != f[j])
  }

  ghost predicate HasPairing(g: Graph) {
    exists f :: IsPairing(g, f)
  }

  /** Element l satisfies one of the first `matchers` matchers. */
  ghost predicate ElementMatched(g: Graph, l: nat, matchers: nat) {
    exists r: nat :: r < matchers && (l, r) in g.edges
  }

  /** Matcher r is satisfied by one of the first `elements` elements. */
  ghost predicate MatcherMatched(g: Graph, r: nat, elements: nat) {
    exists l: nat :: l < elements && (l, r) in g.edges
  }

  ghost function Below(n: nat): (s: set<nat>)
    ensures |s| == n && forall k: nat :: k in s <==> k < n
  {
    if n == 0 then {} else Below(n - 1) + {n - 1}
  }

  lemma {:induction false} DistinctListSize<T>(s: seq<T>)
    requires forall i, j :: 0 <= i < j < |s| ==> s[i] != s[j]
    ensures |set x | x in s| == |s|
  {
    if s != [] {
      var rest := s[..|s| - 1];
      DistinctListSize(rest);
      assert s == rest + [s[|s| - 1]];
      assert (set x | x in s) == (set x | x in rest) + {s[|s| - 1]};
    }
  }

  /** A list of matching edges is no longer than any cover of its edges. */
  lemma ListBoundedByCover(g: Graph, pairs: seq<(nat, nat)>, ls: set<nat>, rs: set<nat>)
    requires forall p :: p in pairs ==> p in g.edges && (p.0 in ls || p.1 in rs)
    requires forall i, j :: 0 <= i < j < |pairs| ==> pairs[i].0 != pairs[j].0 && pairs[i].1 != pairs[j].1
    ensures IsMatching(g, (set p | p in pairs)) && |set p | p in pairs| == |pairs| <= |ls| + |rs|
  {
    DistinctListSize(pairs);
    CoverBoundsMatching(g, (set p | p in pairs), ls, rs);
  }

  ghost function PairingEdges(f: seq<nat>): (s: seq<(nat, nat)>)
    ensures |s| == |f| && forall r: nat :: r < |f| ==> s[r] == (f[r], r)
  {
    seq(|f|, r requires 0 <= r < |f| => (f[r], r))
  }

  /** A matching with as many edges as there are matchers gives every matcher an element. */
  lemma SaturatedHasPairing(g: Graph, pairs: seq<(nat, nat)>)
    requires WellFormed(g) && IsMatchingList(g, pairs) && |pairs| == g.rhs
    ensures HasPairing(g)
  {
    var listed := Graph(g.lhs, g.rhs, set p | p in pairs);
    forall r: nat | r < g.rhs ensures MatcherMatched(listed, r, g.lhs) {
      if !MatcherMatched(listed, r, g.lhs) {
        assert forall p :: p in pairs ==> p.1 != r by {
          forall p | p in pairs ensures p.1 != r { assert p in g.edges && p in listed.edges; }
        }
        ListBoundedByCover(g, pairs, {}, Below(g.rhs) - {r});
      }
    }
    var f := PartnersOf(listed, g.rhs);
    assert IsPairing(g, f);
  }

  /** And a pairing is a matching with that many edges. */
  lemma PairingSaturates(g: Graph, pairs: seq<(nat, nat)>, f: seq<nat>)
    requires WellFormed(g) && IsMaximumMatching(g, pairs) && IsPairing(g, f)
    ensures |pairs| == g.rhs
  {
    ListBoundedByCover(g, PairingEdges(f), {}, Below(g.rhs));
    ListBoundedByCover(g, pairs, {}, Below(g.rhs));
  }

  /** A maximum matching uses every matcher exactly when some pairing exists. */
  lemma PairingIffSaturated(g: Graph, pairs: seq<(nat, nat)>)
    requires WellFormed(g) && IsMaximumMatching(g, pairs)
    ensures |pairs| == g.rhs <==> HasPairing(g)
  {
    if |pairs| == g.rhs { SaturatedHasPairing(g, pairs); }
    if f :| IsPairing(g, f) { PairingSaturates(g, pairs, f); }
  }

  ghost function PartnersOf(g: Graph, n: nat): (f: seq<nat>)
    requires forall r: nat :: r < n ==> MatcherMatched(g, r, g.lhs)
    ensures |f| == n && forall r: nat :: r < n ==> (f[r], r) in g.edges
  {
    if n == 0 then []
    else
      assert MatcherMatched(g, n - 1, g.lhs);
      var l: nat :| l < g.lhs && (l, n - 1) in g.edges;
      PartnersOf(g, n - 1) + [l]
  }

  method FindPairing(matrix: MatchMatrix) returns (result: bool)
    requires matrix.Valid()
    ensures result <==> HasPairing(matrix.Value())
  {
    var matches := FindMaxBipartiteMatching(matrix);
    PairingIffSaturated(matrix.Value(), matches);
    result := |matches| == matrix.numMatchers;
  }

  // ----- The quick check in front of the search

  /** Every element satisfies some matcher and every matcher is satisfied by some element. */
  ghost predicate AllMatched(g: Graph) {
    && (forall l: nat :: l < g.lhs ==> ElementMatched(g, l, g.rhs))
    && (forall r: nat :: r < g.rhs ==> MatcherMatched(g, r, g.lhs))
  }

  lemma NoneYet(g: Graph)
    ensures forall l: nat :: !ElementMatched(g, l, 0)
    ensures forall r: nat :: !MatcherMatched(g, r, 0)
  {
  }

  lemma OneMore(g: Graph, l: nat, r: nat)
    ensures ElementMatched(g, l, r + 1) == (ElementMatched(g, l, r) || (l, r) in g.edges)
    ensures MatcherMatched(g, r, l + 1) == (MatcherMatched(g, r, l) || (l, r) in g.edges)
  {
    if k: nat :| k < r && (l, k) in g.edges { assert k < r + 1; }
    if k: nat :| k < l && (k, r) in g.edges { assert k < l + 1; }
  }

  method VerifyAllElementsAndMatchersAreMatched(matrix: MatchMatrix) returns (result: bool)
    requires matrix.Valid()
    ensures result <==> AllMatched(matrix.Value())
  {
    hide ElementMatched, MatcherMatched;
    ghost var g := matrix.Value();
    result := true;
    NoneYet(g);
    var elementMatched := new bool[matrix.numElements](_ => false);
    var matcherMatched := new bool[matrix.numMatchers](_ => false);
    for ilhs := 0 to matrix.numElements
      invariant matrix.Value() == g
      invariant forall l: nat :: l < elementMatched.Length ==>
                elementMatched[l] == (l < ilhs && ElementMatched(g, l, g.rhs))
      invariant forall r: nat :: r < matcherMatched.Length ==> matcherMatched[r] == MatcherMatched(g, r, ilhs)
    {
      for irhs := 0 to matrix.numMatchers
        invariant matrix.Value() == g
        invariant forall l: nat :: l < elementMatched.Length ==>
                    elementMatched[l] ==
                      ((l < ilhs && ElementMatched(g, l, g.rhs)) || (l == ilhs && ElementMatched(g, l, irhs)))
        invariant forall r: nat :: r < matcherMatched.Length ==>
                    matcherMatched[r] == MatcherMatched(g, r, if r < irhs then ilhs + 1 else ilhs)
      {
        var matched := matrix.HasEdge(ilhs, irhs);
        OneMore(g, ilhs, irhs);
        elementMatched[ilhs] := elementMatched[ilhs] || matched;
        matcherMatched[irhs] := matcherMatched[irhs] || matched;
      }
    }
    for mi := 0 to matcherMatched.Length
      invariant result <==> forall r :: 0 <= r < mi ==> matcherMatched[r]
    {
      if matcherMatched[mi] { continue; }
      result := false;
    }
    for ei := 0 to elementMatched.Length
      invariant result <==> (forall r :: 0 <= r < matcherMatched.Length ==> matcherMatched[r]) &&
                            (forall l :: 0 <= l < ei ==> elementMatched[l])
    {
      if elementMatched[ei] { continue; }
      result := false;
    }
  }

  /** With no more elements than matchers, a rejected matrix has no pairing. */
  lemma RejectedHasNoPairing(g: Graph)
    requires WellFormed(g) && g.lhs <= g.rhs && !AllMatched(g)
    ensures !HasPairing(g)
  {
    if f :| IsPairing(g, f) {
      forall r: nat | r < g.rhs ensures MatcherMatched(g, r, g.lhs) {
        assert (f[r], r) in g.edges;
      }
      var l: nat :| l < g.lhs && !ElementMatched(g, l, g.rhs);
      forall p | p in PairingEdges(f) ensures p.0 in Below(g.lhs) - {l} {
        assert p in g.edges;
      }
      ListBoundedByCover(g, PairingEdges(f), Below(g.lhs) - {l}, {});
    }
  }

  /** With more elements than matchers, the quick check rejects a matrix that has a pairing. */
  lemma RejectedWithPairing(lhs: nat, rhs: nat) returns (g: Graph)
    requires rhs < lhs
    ensures WellFormed(g) && g.lhs == lhs && g.rhs == rhs && !AllMatched(g) && HasPairing(g)
  {
    g := Graph(lhs, rhs, set r: nat | r < rhs :: (r, r));
    var f := seq(rhs, r requires 0 <= r < rhs => r);
    assert IsPairing(g, f);
    assert !ElementMatched(g, rhs, rhs);
  }

  /** The quick check may stand in front of the search exactly on shapes with lhs <= rhs. */
  lemma QuickCheckIsSafeIff(lhs: nat, rhs: nat)
    ensures (forall g :: WellFormed(g) && g.lhs == lhs && g.rhs == rhs && !AllMatched(g) ==> !HasPairing(g)) <==>
              lhs <= rhs
  {
    if lhs <= rhs {
      forall g | WellFormed(g) && g.lhs == lhs && g.rhs == rhs && !AllMatched(g) ensures !HasPairing(g) {
        RejectedHasNoPairing(g);
      }
    } else {
      var g := RejectedWithPairing(lhs, rhs);
    }
  }

  // ----- The matcher on a container

  /** The matrix records that element l satisfies matcher r. */
  ghost predicate Records<E>(g: Graph, elements: seq<E>, matchers: seq<E -> bool>) {
    && g.lhs == |elements| && g.rhs == |matchers|
    && forall l: nat, r: nat :: l < g.lhs && r < g.rhs ==> ((l, r) in g.edges <==> matchers[r](elements[l]))
  }

  /** Asks every matcher about every element, element by element, then copies the answers into a matrix. */
  method AnalyzeElements<E>(elements: seq<E>, matchers: seq<E -> bool>) returns (matrix: MatchMatrix)
    ensures matrix.Valid() && fresh(matrix) && fresh(matrix.matched)
    ensures matrix.numElements == |elements| && matrix.numMatchers == |matchers|
    ensures Records(matrix.Value(), elements, matchers)
  {
    var didMatch: seq<seq<bool>> := [];
    for l := 0 to |elements|
      invariant |didMatch| == l
      invariant forall i :: 0 <= i < l ==> |didMatch[i]| == |matchers|
      invariant forall i, r :: 0 <= i < l && 0 <= r < |matchers| ==> didMatch[i][r] == matchers[r](elements[i])
    {
      var row: seq<bool> := [];
      for r := 0 to |matchers|
        invariant |row| == r && forall j :: 0 <= j < r ==> row[j] == matchers[j](elements[l])
      {
        row := row + [matchers[r](elements[l])];
      }
      didMatch := didMatch + [row];
    }
    matrix := new MatchMatrix(|elements|, |matchers|);
    for l := 0 to |elements|
      invariant matrix.Valid() && fresh(matrix) && fresh(matrix.matched)
      invariant forall i: nat, j: nat :: i < l && j < |matchers| ==>
                  ((i, j) in matrix.Value().edges <==> matchers[j](elements[i]))
    {
      for r := 0 to |matchers|
        invariant matrix.Valid() && fresh(matrix) && fresh(matrix.matched)
        invariant forall i: nat, j: nat :: (i < l && j < |matchers|) || (i == l && j < r) ==>
                    ((i, j) in matrix.Value().edges <==> matchers[j](elements[i]))
      {
        matrix.SetEdge(l, r, didMatch[l][r]);
      }
    }
  }

  /** Matcher r is satisfied by element f[r], and every element is used once. */
  ghost predicate IsMatchingOrder<E>(elements: seq<E>, matchers: seq<E -> bool>, f: seq<nat>) {
    && |f| == |matchers| == |elements|
    && (forall r :: 0 <= r < |f| ==> f[r] < |elements| && matchers[r](elements[f[r]]))
    && (forall i, j :: 0 <= i < j < |f| ==> f[i] != f[j])
  }

  lemma PairingIsOrder<E>(g: Graph, elements: seq<E>, matchers: seq<E -> bool>)
    requires WellFormed(g) && Records(g, elements, matchers) && |elements| == |matchers|
    ensures HasPairing(g) <==> exists f :: IsMatchingOrder(elements, matchers, f)
  {
    if f :| IsPairing(g, f) {
      forall r: nat | r < |f| ensures f[r] < |elements| && matchers[r](elements[f[r]]) {
        assert (f[r], r) in g.edges;
      }
      assert IsMatchingOrder(elements, matchers, f);
    }
    if f :| IsMatchingOrder(elements, matchers, f) { assert IsPairing(g, f); }
  }

  /** A container matches exactly when some permutation of its elements satisfies the matchers in order. */
  method MatchAndExplain<E>(elements: seq<E>, matchers: seq<E -> bool>) returns (result: bool)
    ensures result <==> exists f :: IsMatchingOrder(elements, matchers, f)
  {
    var matrix := AnalyzeElements(elements, matchers);
    var actualCount := matrix.numElements;
    if actualCount == 0 && |matchers| == 0 {
      assert IsMatchingOrder(elements, matchers, []);
      return true;
    }
    if actualCount != |matchers| {
      return false;
    }
    PairingIsOrder(matrix.Value(), elements, matchers);
    result := VerifyAllElementsAndMatchersAreMatched(matrix);
    if result {
      result := FindPairing(matrix);
    } else {
      RejectedHasNoPairing(matrix.Value());
    }
  }
}
