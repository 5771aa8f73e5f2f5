/** Ford-Fulkerson over two mutually referent arrays: the search, its invariants, and maximality. */
module BipartiteMatching {
  import opened MatchMatrices

  // The sentinel of left_ and right_: a value that is no node.
  const UNUSED: int := -1

  /** A set of graph edges that uses no node twice. */
  ghost predicate IsMatching(g: Graph, m: set<(nat, nat)>) {
    && m <= g.edges
    && forall e, f :: e in m && f in m && e != f ==> e.0 != f.0 && e.1 != f.1
  }

  ghost predicate Neighbours(g: Graph, l: nat, rs: set<nat>) {
    forall r :: (l, r) in g.edges ==> r in rs
  }

  // ----- Invariants over the two arrays

  /** Every used left entry is a graph edge whose right end points back. */
  ghost predicate LeftReferent(g: Graph, left: seq<int>, right: seq<int>) {
    && |left| == g.lhs && |right| == g.rhs
    && forall l: nat {:trigger left[l]} :: l < |left| && left[l] != UNUSED ==>
         0 <= left[l] < |right| && (l, left[l] as nat) in g.edges && right[left[l]] == l
  }

  /** The same from the right, where the entry `stale` may still name its former partner `holder`. */
  ghost predicate RightReferent(left: seq<int>, right: seq<int>, stale: int, holder: int) {
    forall r: nat {:trigger right[r]} :: r < |right| && right[r] != UNUSED ==>
      0 <= right[r] < |left| && (left[right[r]] == r || (r == stale && right[r] == holder))
  }

  /** left[l] is unused or right[left[l]] == l, and its mirror; used pairs are edges. */
  ghost predicate MutuallyReferent(g: Graph, left: seq<int>, right: seq<int>) {
    LeftReferent(g, left, right) && RightReferent(left, right, UNUSED, UNUSED)
  }

  /** A dead region: every right node in it is matched, and its partners see nothing outside. */
  ghost predicate Closed(g: Graph, right: seq<int>, dead: set<nat>) {
    forall r {:trigger r in dead} :: r in dead ==>
      r < |right| && 0 <= right[r] && Neighbours(g, right[r], dead)
  }

  ghost function Marked(seen: seq<bool>): (s: set<nat>)
    ensures forall r: nat :: r in s <==> r < |seen| && seen[r]
  {
    set r: nat | r < |seen| && seen[r]
  }

  ghost function Unmarked(seen: seq<bool>): (s: set<nat>)
    ensures forall r: nat :: r in s <==> r < |seen| && !seen[r]
  {
    set r: nat | r < |seen| && !seen[r]
  }

  /** What a failed search from l has established about the nodes it marked. */
  ghost predicate DeadEnd(g: Graph, right: seq<int>, l: nat, before: seq<bool>, after: seq<bool>) {
    && |before| == |after| == |right|
    && Neighbours(g, l, Marked(after))
    && forall r: nat {:trigger after[r]} :: r < |right| && after[r] && !before[r] ==>
         0 <= right[r] && Neighbours(g, right[r], Marked(after))
  }

  /** What a successful search from l has done to the two arrays. */
  ghost predicate Augmented(g: Graph, left0: seq<int>, right0: seq<int>, left: seq<int>, right: seq<int>,
                            l: nat, seen0: seq<bool>, dead: set<nat>)
    requires |left| == |left0| && |right| == |right0| == |seen0| && l < |left|
  {
    && LeftReferent(g, left, right)
    && RightReferent(left, right, left0[l], l)
    && left[l] != UNUSED && !seen0[left[l]]
    && (forall k: nat {:trigger left[k]} :: k < |left| && k != l ==> (left[k] == UNUSED <==> left0[k] == UNUSED))
    && (forall r: nat {:trigger right[r]} :: r < |right| && right0[r] != UNUSED ==> right[r] != UNUSED)
    && (forall r: nat {:trigger right[r]} :: r < |right| && (seen0[r] || r in dead) ==> right[r] == right0[r])
    && (forall r: nat {:trigger right0[r]} :: r < |right0| && r in dead ==> right0[r] != l)
  }

  /** The pairs {l, left[l]} for the used l below n, in order of l. */
  ghost function LinkedPairs(left: seq<int>, n: nat): seq<(nat, nat)>
    requires n <= |left| && forall l :: 0 <= l < n ==> left[l] == UNUSED || 0 <= left[l]
  {
    if n == 0 then []
    else LinkedPairs(left, n - 1) + if left[n - 1] == UNUSED then [] else [(n - 1, left[n - 1] as nat)]
  }

  /** The evidence one pass leaves behind: whatever is still unmatched sees only a dead region. */
  ghost predicate OnePassCertificate(g: Graph, left: seq<int>, right: seq<int>, dead: set<nat>) {
    && MutuallyReferent(g, left, right)
    && Closed(g, right, dead)
    && forall l: nat :: l < |left| && left[l] == UNUSED ==> Neighbours(g, l, dead)
  }

  /** The left nodes a search has entered, none of them twice. */
  ghost predicate OnceEach(entered: seq<nat>) {
    forall i, j :: 0 <= i < j < |entered| ==> entered[i] != entered[j]
  }

  /** Each of them was reached through its partner, which is marked, or has none. */
  ghost predicate PartnersSeen(left: seq<int>, seen: seq<bool>, entered: seq<nat>) {
    forall l :: l in entered ==> l < |left| && (left[l] == UNUSED || (0 <= left[l] < |seen| && seen[left[l]]))
  }

  class MaxBipartiteMatchState {
    const graph: MatchMatrix
    const left: array<int>
    const right: array<int>

    ghost predicate Shape()
      reads graph
    {
      graph.Valid() && left.Length == graph.numElements && right.Length == graph.numMatchers && left != right
    }

    constructor (g: MatchMatrix)
      requires g.Valid()
      ensures graph == g && Shape() && fresh(left) && fresh(right)
      ensures left[..] == seq(g.numElements, _ => UNUSED) && right[..] == seq(g.numMatchers, _ => UNUSED)
      ensures MutuallyReferent(g.Value(), left[..], right[..])
    {
      graph := g;
      left := new int[g.numElements](_ => UNUSED);
      right := new int[g.numMatchers](_ => UNUSED);
      new;
      assert left[..] == seq(g.numElements, _ => UNUSED) && right[..] == seq(g.numMatchers, _ => UNUSED);
    }

    /** Depth-first search from ilhs for a free right node, relinking the path when one is found. */
    method TryAugment(ilhs: nat, seen: array<bool>, ghost dead: set<nat>, ghost entered: seq<nat>)
      returns (found: bool, ghost trace: seq<nat>)
      requires Shape() && ilhs < left.Length && seen.Length == right.Length && seen != graph.matched
      requires MutuallyReferent(graph.Value(), left[..], right[..])
      requires left[ilhs] != UNUSED ==> seen[left[ilhs]]
      requires Closed(graph.Value(), right[..], dead)
      requires ilhs !in entered && OnceEach(entered) && PartnersSeen(left[..], seen[..], entered)
      modifies left, right, seen
      ensures graph.Value() == old(graph.Value())
      ensures forall r :: 0 <= r < seen.Length && old(seen[r]) ==> seen[r]
      ensures !found ==> left[..] == old(left[..]) && right[..] == old(right[..])
      ensures !found ==> DeadEnd(graph.Value(), right[..], ilhs, old(seen[..]), seen[..])
      ensures found ==>
        Augmented(graph.Value(), old(left[..]), old(right[..]), left[..], right[..], ilhs, old(seen[..]), dead)
      ensures entered + [ilhs] <= trace && OnceEach(trace)
      ensures !found ==> PartnersSeen(left[..], seen[..], trace)
      decreases Unmarked(seen[..])
    {
      hide Searched, DeadEnd, Augmented, Closed, Neighbours, RightReferent, OnceEach, PartnersSeen;
      ghost var g, before, left0, right0 := graph.Value(), seen[..], left[..], right[..];
      SearchStarts(g, right0, ilhs, before);
      trace := entered + [ilhs];
      Enters(left0, before, entered, ilhs);
      for irhs := 0 to graph.numMatchers
        invariant graph.Value() == g && left[..] == left0 && right[..] == right0
        invariant forall r :: 0 <= r < seen.Length && before[r] ==> seen[r]
        invariant Searched(g, right0, ilhs, irhs, before, seen[..])
        invariant entered + [ilhs] <= trace && OnceEach(trace) && PartnersSeen(left0, seen[..], trace)
      {
        SearchSkips(g, right0, ilhs, irhs, before, seen[..]);
        if seen[irhs] { continue; }
        if !graph.HasEdge(ilhs, irhs) { continue; }
        ghost var entry := seen[..];
        seen[irhs] := true;
        ghost var marked := seen[..];
        assert marked == entry[irhs := true];
        UnmarkedShrinks(before, entry, irhs);
        HolderOf(g, left0, right0, irhs);
        var free := right[irhs] == UNUSED;
        NotEntered(left0, entry, irhs, trace);
        if !free {
          free, trace := TryAugment(right[irhs], seen, dead, trace);
        }
        if free {
          Relink(g, left0, right0, left[..], right[..], ilhs, irhs, before, marked, dead);
          left[ilhs] := irhs;
          right[irhs] := ilhs;
          return true, trace;
        }
        SearchStep(g, right0, ilhs, irhs, before, entry, seen[..]);
      }
      SearchEnds(g, right0, ilhs, before, seen[..]);
      return false, trace;
    }

    /** One pass over the left nodes; the links left at the end are the result. */
    method Compute() returns (pairs: seq<(nat, nat)>)
      requires Shape()
      requires left[..] == seq(graph.numElements, _ => UNUSED) && right[..] == seq(graph.numMatchers, _ => UNUSED)
      modifies left, right
      ensures graph.Value() == old(graph.Value())
      ensures MutuallyReferent(graph.Value(), left[..], right[..])
      ensures pairs == LinkedPairs(left[..], left.Length)
      ensures exists dead: set<nat> :: OnePassCertificate(graph.Value(), left[..], right[..], dead)
    {
      hide Closed, Neighbours, LeftReferent, RightReferent, OnePass, Augmented, DeadEnd;
      ghost var g := graph.Value();
      ghost var dead: set<nat> := {};
      PassStarts(g, left[..], right[..]);
      for ilhs := 0 to graph.numElements
        invariant graph.Value() == g
        invariant OnePass(g, left[..], right[..], ilhs, dead)
      {
        PassIsHalfway(g, left[..], right[..], ilhs, dead);
        assert left[ilhs] == UNUSED;  // the source checks this at run time
        var seen := new bool[graph.numMatchers](_ => false);
        ghost var left0, right0, unseen := left[..], right[..], seen[..];
        ghost var trace;
        var found;
        found, trace := TryAugment(ilhs, seen, dead, []);
        assert OnceEach(trace);
        if found {
          PassAugments(g, left0, right0, left[..], right[..], ilhs, unseen, dead);
        } else {
          PassDeadEnd(g, left0, right0, ilhs, unseen, seen[..], dead);
          dead := dead + Marked(seen[..]);
        }
      }
      PassEnds(g, left[..], right[..], dead);
      pairs := [];
      for ilhs := 0 to left.Length
        invariant pairs == LinkedPairs(left[..], ilhs)
      {
        var irhs := left[ilhs];
        if irhs == UNUSED { continue; }
        pairs := pairs + [(ilhs, irhs)];
      }
    }
  }

  /** The right nodes below upTo have been tried from l, and each newly marked one is a dead end. */
  ghost predicate Searched(g: Graph, right: seq<int>, l: nat, upTo: nat, before: seq<bool>, now: seq<bool>) {
    && |before| == |now| == |right|
    && (forall r: nat {:trigger now[r]} :: r < |before| && before[r] ==> now[r])
    && (forall r: nat :: r < upTo && (l, r) in g.edges ==> r < |now| && now[r])
    && (forall r: nat {:trigger now[r]} :: r < |right| && now[r] && !before[r] ==>
          0 <= right[r] && Neighbours(g, right[r], Marked(now)))
  }

  lemma Enters(left: seq<int>, seen: seq<bool>, entered: seq<nat>, l: nat)
    requires l !in entered && OnceEach(entered) && PartnersSeen(left, seen, entered)
    requires l < |left| && (left[l] == UNUSED || (0 <= left[l] < |seen| && seen[left[l]]))
    ensures OnceEach(entered + [l]) && PartnersSeen(left, seen, entered + [l])
  {
  }

  /** A left node is reached through one right node only, so behind an unmarked one stands a new left node. */
  lemma NotEntered(left: seq<int>, seen: seq<bool>, irhs: nat, entered: seq<nat>)
    requires irhs < |seen| && !seen[irhs] && PartnersSeen(left, seen, entered)
    ensures forall l: nat :: l < |left| && left[l] == irhs ==> l !in entered
    ensures PartnersSeen(left, seen[irhs := true], entered)
  {
  }

  lemma SearchStarts(g: Graph, right: seq<int>, l: nat, before: seq<bool>)
    requires |before| == |right|
    ensures Searched(g, right, l, 0, before, before)
  {
  }

  lemma SearchSkips(g: Graph, right: seq<int>, l: nat, irhs: nat, before: seq<bool>, now: seq<bool>)
    requires Searched(g, right, l, irhs, before, now) && irhs < |now|
    ensures now[irhs] || (l, irhs) !in g.edges ==> Searched(g, right, l, irhs + 1, before, now)
  {
  }

  /** A search that has tried every right node has reached a dead end. */
  lemma SearchEnds(g: Graph, right: seq<int>, l: nat, before: seq<bool>, now: seq<bool>)
    requires WellFormed(g) && Searched(g, right, l, g.rhs, before, now)
    ensures DeadEnd(g, right, l, before, now)
  {
  }

  lemma HolderOf(g: Graph, left: seq<int>, right: seq<int>, irhs: nat)
    requires MutuallyReferent(g, left, right) && irhs < |right|
    ensures right[irhs] != UNUSED ==> 0 <= right[irhs] < |left| && left[right[irhs]] == irhs
  {
  }

  lemma SearchStep(g: Graph, right: seq<int>, l: nat, irhs: nat, before: seq<bool>, entry: seq<bool>, after: seq<bool>)
    requires Searched(g, right, l, irhs, before, entry)
    requires irhs < |right| && 0 <= right[irhs]
    requires DeadEnd(g, right, right[irhs], entry[irhs := true], after)
    requires forall r: nat :: r < |right| && entry[irhs := true][r] ==> after[r]
    ensures Searched(g, right, l, irhs + 1, before, after)
  {
    var marked := entry[irhs := true];
    assert marked[irhs];
    assert forall r: nat :: r < |right| && entry[r] ==> marked[r];
    assert Marked(entry) <= Marked(after);
  }

  lemma UnmarkedShrinks(before: seq<bool>, entry: seq<bool>, irhs: nat)
    requires |before| == |entry| && irhs < |entry| && !entry[irhs]
    requires forall r: nat :: r < |before| && before[r] ==> entry[r]
    ensures Unmarked(entry[irhs := true]) < Unmarked(before)
  {
    assert irhs in Unmarked(before) && irhs !in Unmarked(entry[irhs := true]);
  }

  /** Linking ilhs to irhs repairs the one entry the inner search left stale. */
  lemma Relink(g: Graph, left0: seq<int>, right0: seq<int>, left: seq<int>, right: seq<int>,
               ilhs: nat, irhs: nat, before: seq<bool>, marked: seq<bool>, dead: set<nat>)
    requires |left| == |left0| == g.lhs && |right| == |right0| == |before| == |marked| == g.rhs
    requires ilhs < |left| && irhs < |right| && (ilhs, irhs) in g.edges
    requires MutuallyReferent(g, left0, right0) && Closed(g, right0, dead)
    requires !before[irhs] && marked[irhs] && forall r: nat :: r < |before| && before[r] ==> marked[r]
    requires left0[ilhs] != UNUSED ==> before[left0[ilhs]]
    requires right0[irhs] == UNUSED ==> left == left0 && right == right0
    requires right0[irhs] != UNUSED ==> Augmented(g, left0, right0, left, right, right0[irhs], marked, dead)
    ensures Augmented(g, left0, right0, left[ilhs := irhs], right[irhs := ilhs], ilhs, before, dead)
  {
    var left', right' := left[ilhs := irhs], right[irhs := ilhs];
    assert irhs !in dead;
    forall r: nat | r < |right0| && r in dead ensures right0[r] != ilhs {
      assert right0[r] == ilhs ==> Neighbours(g, ilhs, dead);
    }
    assert left[ilhs] == left0[ilhs] by {
      if left0[ilhs] != UNUSED {
        assert right0[left0[ilhs]] == ilhs;
        assert right[left0[ilhs]] == ilhs;
      }
    }
    assert LeftReferent(g, left', right') by {
      forall k: nat | k < |left'| && left'[k] != UNUSED && k != ilhs
        ensures 0 <= left'[k] < |right'| && (k, left'[k] as nat) in g.edges && right'[left'[k]] == k
      {
        assert left[k] != UNUSED;
        assert left[k] != irhs;
      }
    }
    assert RightReferent(left', right', left0[ilhs], ilhs) by {
      forall r: nat | r < |right'| && right'[r] != UNUSED && r != irhs
        ensures 0 <= right'[r] < |left'| && (left'[right'[r]] == r || (r == left0[ilhs] && right'[r] == ilhs))
      {
        assert right[r] != UNUSED;
      }
    }
    assert forall k: nat {:trigger left'[k]} :: k < |left'| && k != ilhs ==>
          (left'[k] == UNUSED <==> left0[k] == UNUSED);
    assert forall r: nat {:trigger right'[r]} :: r < |right'| && right0[r] != UNUSED ==> right'[r] != UNUSED;
    assert forall r: nat {:trigger right'[r]} :: r < |right'| && (before[r] || r in dead) ==> right'[r] == right0[r];
  }

  ghost function UsedLeft(left: seq<int>): (s: set<nat>)
    ensures forall l: nat :: l in s <==> l < |left| && left[l] != UNUSED
  {
    set l: nat | l < |left| && left[l] != UNUSED
  }

  /** A successful top-level search restores the invariant and gains exactly one left node. */
  lemma AugmentAddsOne(g: Graph, left0: seq<int>, right0: seq<int>, left: seq<int>, right: seq<int>,
                       l: nat, seen0: seq<bool>, dead: set<nat>)
    requires |left| == |left0| && |right| == |right0| == |seen0| && l < |left|
    requires MutuallyReferent(g, left0, right0) && left0[l] == UNUSED && Closed(g, right0, dead)
    requires Augmented(g, left0, right0, left, right, l, seen0, dead)
    ensures MutuallyReferent(g, left, right)
    ensures UsedLeft(left) == UsedLeft(left0) + {l} && l !in UsedLeft(left0)
    ensures Closed(g, right, dead)
    ensures forall k: nat :: k < |left| && k != l && left0[k] != UNUSED && left0[k] as nat in dead ==>
              left[k] == left0[k]
  {
    forall k: nat | k < |left| && k != l && left0[k] != UNUSED && left0[k] as nat in dead ensures left[k] == left0[k] {
      assert right[left0[k]] == right0[left0[k]] == k;
    }
  }

  lemma DeadEndJoins(g: Graph, right: seq<int>, l: nat, unseen: seq<bool>, seen: seq<bool>, dead: set<nat>)
    requires Closed(g, right, dead) && DeadEnd(g, right, l, unseen, seen)
    requires forall r: nat :: r < |unseen| ==> !unseen[r]
    ensures Closed(g, right, dead + Marked(seen)) && Neighbours(g, l, dead + Marked(seen))
  {
    forall r: nat | r in Marked(seen) ensures 0 <= right[r] && Neighbours(g, right[r], dead + Marked(seen)) {
      assert seen[r] && !unseen[r];
    }
  }

  // ----- The pass over the left nodes

  /** Left nodes below upTo are matched or see only the dead region; the others are still unused. */
  ghost predicate OnePass(g: Graph, left: seq<int>, right: seq<int>, upTo: nat, dead: set<nat>) {
    && MutuallyReferent(g, left, right)
    && Closed(g, right, dead)
    && (forall l: nat :: upTo <= l < |left| ==> left[l] == UNUSED)
    && (forall l: nat :: l < upTo && l < |left| && left[l] == UNUSED ==> Neighbours(g, l, dead))
  }

  lemma PassStarts(g: Graph, left: seq<int>, right: seq<int>)
    requires left == seq(g.lhs, _ => UNUSED) && right == seq(g.rhs, _ => UNUSED)
    ensures OnePass(g, left, right, 0, {})
  {
  }

  lemma PassIsHalfway(g: Graph, left: seq<int>, right: seq<int>, upTo: nat, dead: set<nat>)
    requires OnePass(g, left, right, upTo, dead) && upTo < |left|
    ensures MutuallyReferent(g, left, right) && Closed(g, right, dead) && left[upTo] == UNUSED
  {
  }

  lemma PassAugments(g: Graph, left0: seq<int>, right0: seq<int>, left: seq<int>, right: seq<int>,
                     l: nat, unseen: seq<bool>, dead: set<nat>)
    requires |left| == |left0| && |right| == |right0| == |unseen| && l < |left|
    requires OnePass(g, left0, right0, l, dead) && Augmented(g, left0, right0, left, right, l, unseen, dead)
    ensures OnePass(g, left, right, l + 1, dead)
  {
    AugmentAddsOne(g, left0, right0, left, right, l, unseen, dead);
    hide Augmented, Neighbours, Closed, LeftReferent, RightReferent;
    forall k: nat | k < |left| && k != l ensures left[k] == UNUSED <==> left0[k] == UNUSED {
      assert k in UsedLeft(left) <==> k in UsedLeft(left0);
    }
    assert l in UsedLeft(left);
  }

  lemma PassDeadEnd(g: Graph, left: seq<int>, right: seq<int>, l: nat,
                    unseen: seq<bool>, seen: seq<bool>, dead: set<nat>)
    requires OnePass(g, left, right, l, dead) && l < |left| && DeadEnd(g, right, l, unseen, seen)
    requires forall r: nat :: r < |unseen| ==> !unseen[r]
    ensures OnePass(g, left, right, l + 1, dead + Marked(seen))
  {
    DeadEndJoins(g, right, l, unseen, seen, dead);
  }

  lemma PassEnds(g: Graph, left: seq<int>, right: seq<int>, dead: set<nat>)
    requires OnePass(g, left, right, g.lhs, dead)
    ensures OnePassCertificate(g, left, right, dead) && MutuallyReferent(g, left, right)
    ensures forall l :: 0 <= l < |left| ==> left[l] == UNUSED || 0 <= left[l]
  {
  }

  // ----- Maximality: a vertex cover of the same size

  ghost predicate Covers(m: set<(nat, nat)>, ls: set<nat>, rs: set<nat>) {
    forall e :: e in m ==> e.0 in ls || e.1 in rs
  }

  /** No matching is larger than a vertex cover: each cover node meets at most one of its edges. */
  lemma {:induction false} CoverBoundsMatching(g: Graph, m: set<(nat, nat)>, ls: set<nat>, rs: set<nat>)
    requires IsMatching(g, m) && Covers(m, ls, rs)
    ensures |m| <= |ls| + |rs|
  {
    if m != {} {
      var e :| e in m;
      if e.0 in ls {
        CoverBoundsMatching(g, m - {e}, ls - {e.0}, rs);
      } else {
        CoverBoundsMatching(g, m - {e}, ls, rs - {e.1});
      }
    }
  }

  ghost function UsedInto(left: seq<int>, rs: set<nat>): (s: set<nat>)
    ensures forall l: nat :: l in s <==> l < |left| && 0 <= left[l] && left[l] as nat in rs
  {
    set l: nat | l < |left| && 0 <= left[l] && left[l] as nat in rs
  }

  /** Matched right nodes and their partners are equally many. */
  lemma {:induction false} PartnersAreAsMany(g: Graph, left: seq<int>, right: seq<int>, rs: set<nat>)
    requires MutuallyReferent(g, left, right)
    requires forall r :: r in rs ==> r < |right| && right[r] != UNUSED
    ensures |UsedInto(left, rs)| == |rs|
  {
    if rs == {} {
      assert UsedInto(left, rs) == {};
    } else {
      var r :| r in rs;
      PartnersAreAsMany(g, left, right, rs - {r});
      assert left[right[r]] == r;
      assert UsedInto(left, rs) == UsedInto(left, rs - {r}) + {right[r] as nat};
    }
  }

  /** The dead region and the matched left nodes outside it cover every edge, with one node per link. */
  lemma CertificateIsCover(g: Graph, left: seq<int>, right: seq<int>, dead: set<nat>)
    requires WellFormed(g) && OnePassCertificate(g, left, right, dead)
    ensures Covers(g.edges, UsedLeft(left) - UsedInto(left, dead), dead)
    ensures |UsedLeft(left) - UsedInto(left, dead)| + |dead| == |UsedLeft(left)|
  {
    forall e | e in g.edges ensures e.0 in UsedLeft(left) - UsedInto(left, dead) || e.1 in dead {
      var l, r := e.0, e.1;
      assert (l, r) in g.edges;
      if l in UsedInto(left, dead) {
        assert right[left[l]] == l;
        assert Neighbours(g, l, dead);
      }
    }
    PartnersAreAsMany(g, left, right, dead);
    assert UsedInto(left, dead) <= UsedLeft(left);
  }

  lemma {:induction false} LinkedPairsListMatching(left: seq<int>, n: nat)
    requires n <= |left| && forall l :: 0 <= l < |left| ==> left[l] == UNUSED || 0 <= left[l]
    ensures var ps := LinkedPairs(left, n);
      && |ps| == |UsedLeft(left[..n])|
      && (forall i :: 0 <= i < |ps| ==> ps[i].0 < n && left[ps[i].0] == ps[i].1)
      && (forall i, j :: 0 <= i < j < |ps| ==> ps[i].0 < ps[j].0)
  {
    UsedLeftStep(left, n);
    hide UsedLeft;
    if n > 0 {
      LinkedPairsListMatching(left, n - 1);
    }
  }

  lemma UsedLeftStep(left: seq<int>, n: nat)
    requires n <= |left|
    ensures n == 0 ==> |UsedLeft(left[..n])| == 0
    ensures n > 0 ==> |UsedLeft(left[..n])| == |UsedLeft(left[..n - 1])| + if left[n - 1] == UNUSED then 0 else 1
  {
    if n == 0 {
      assert UsedLeft(left[..n]) == {};
    } else {
      assert UsedLeft(left[..n]) == UsedLeft(left[..n - 1]) + if left[n - 1] == UNUSED then {} else {n - 1};
    }
  }

  /** A list of distinct graph edges, in order of their elements, that uses no node twice. */
  ghost predicate IsMatchingList(g: Graph, pairs: seq<(nat, nat)>) {
    && (forall i :: 0 <= i < |pairs| ==> pairs[i] in g.edges)
    && (forall i, j :: 0 <= i < j < |pairs| ==> pairs[i].0 < pairs[j].0 && pairs[i].1 != pairs[j].1)
  }

  /** A maximum matching, as a list: no matching of the graph has more edges. */
  ghost predicate IsMaximumMatching(g: Graph, pairs: seq<(nat, nat)>) {
    IsMatchingList(g, pairs) && forall m :: IsMatching(g, m) ==> |m| <= |pairs|
  }

  lemma LinkedPairsAreMatching(g: Graph, left: seq<int>, right: seq<int>)
    requires MutuallyReferent(g, left, right)
    ensures IsMatchingList(g, LinkedPairs(left, |left|)) && |LinkedPairs(left, |left|)| == |UsedLeft(left)|
  {
    LinkedPairsListMatching(left, |left|);
    hide LinkedPairs, UsedLeft;
    var pairs := LinkedPairs(left, |left|);
    assert left[..|left|] == left;
    forall i, j | 0 <= i < j < |pairs| ensures pairs[i].1 != pairs[j].1 {
      assert right[left[pairs[i].0]] == pairs[i].0 && right[left[pairs[j].0]] == pairs[j].0;
    }
  }

  lemma CertificateIsMaximum(g: Graph, left: seq<int>, right: seq<int>, dead: set<nat>)
    requires WellFormed(g) && OnePassCertificate(g, left, right, dead)
    ensures IsMaximumMatching(g, LinkedPairs(left, |left|))
    ensures exists ls: set<nat>, rs: set<nat> :: Covers(g.edges, ls, rs) && |ls| + |rs| == |LinkedPairs(left, |left|)|
  {
    LinkedPairsAreMatching(g, left, right);
    CertificateIsCover(g, left, right, dead);
    hide LinkedPairs, IsMatchingList, Closed, LeftReferent, RightReferent, UsedLeft, UsedInto;
    var ls := UsedLeft(left) - UsedInto(left, dead);
    forall m | IsMatching(g, m) ensures |m| <= |LinkedPairs(left, |left|)| {
      CoverBoundsMatching(g, m, ls, dead);
    }
  }

  method FindMaxBipartiteMatching(g: MatchMatrix) returns (pairs: seq<(nat, nat)>)
    requires g.Valid()
    ensures IsMaximumMatching(g.Value(), pairs)
    ensures exists ls: set<nat>, rs: set<nat> :: Covers(g.Value().edges, ls, rs) && |ls| + |rs| == |pairs|
  {
    var state := new MaxBipartiteMatchState(g);
    pairs := state.Compute();
    ghost var left, right := state.left[..], state.right[..];
    ghost var dead :| OnePassCertificate(g.Value(), left, right, dead);
    CertificateIsMaximum(g.Value(), left, right, dead);
  }
}
