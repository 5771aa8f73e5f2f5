/** Expectations ordered by prerequisites: what may be called, what a call retires, and what is reported missing. */
module Expectations {

  class Expectation {
    // Set before the first call and never changed. Prerequisites exist before the expectation that names them.
    const prerequisites: seq<Expectation>
    const minCalls: nat
    const maxCalls: nat
    const retiresOnSaturation: bool
    ghost const rank: nat

    var callCount: nat
    var retired: bool

    constructor (prerequisites: seq<Expectation>, minCalls: nat, maxCalls: nat, retiresOnSaturation: bool)
      requires forall p :: p in prerequisites ==> Ordered(p)
      ensures Ordered(this) && this.prerequisites == prerequisites
      ensures this.minCalls == minCalls && this.maxCalls == maxCalls && this.retiresOnSaturation == retiresOnSaturation
      ensures callCount == 0 && !retired
    {
      this.prerequisites := prerequisites;
      this.minCalls, this.maxCalls, this.retiresOnSaturation := minCalls, maxCalls, retiresOnSaturation;
      rank := RankAbove(prerequisites);
      callCount, retired := 0, false;
    }

    predicate IsSatisfied()
      reads this
    {
      minCalls <= callCount <= maxCalls
    }

    predicate IsSaturated()
      reads this
    {
      callCount >= maxCalls
    }

    method Retire()
      modifies this`retired
      ensures retired
    {
      retired := true;
    }

    /** Retires everything this expectation waits for, stopping early at what is already retired. */
    method RetireAllPreRequisites(ghost family: set<Expectation>)
      requires this in family && Family(family) && RetiredClosed(family)
      modifies Ancestors(this)`retired
      ensures forall a :: a in Ancestors(this) ==> a.retired
      ensures RetiredClosed(family)
      decreases rank
    {
      if retired {
        return;
      }
      for i := 0 to |prerequisites|
        invariant RetiredClosed(family)
        invariant forall p :: p in prerequisites[..i] ==> p.retired
        invariant forall x :: x in family && old(x.retired) ==> x.retired
      {
        var prerequisite := prerequisites[i];
        AncestorsTransitive(this, prerequisite);
        if !prerequisite.retired {
          prerequisite.RetireAllPreRequisites(family);
          prerequisite.Retire();
        }
      }
      forall a | a in Ancestors(this) ensures a.retired {
        AncestorsStep(this, a);
      }
    }

    method AllPrerequisitesAreSatisfied(ghost family: set<Expectation>) returns (all: bool)
      requires this in family && Family(family)
      ensures all <==> forall a :: a in Ancestors(this) ==> a.minCalls <= a.callCount <= a.maxCalls
      decreases rank
    {
      for i := 0 to |prerequisites|
        invariant forall j :: 0 <= j < i ==> prerequisites[j].IsSatisfied()
        invariant forall j, a :: 0 <= j < i && a in Ancestors(prerequisites[j]) ==> a.IsSatisfied()
      {
        var p := prerequisites[i];
        AncestorsTransitive(this, p);
        if !p.IsSatisfied() {
          return false;
        }
        var above := p.AllPrerequisitesAreSatisfied(family);
        if !above {
          return false;
        }
      }
      forall a | a in Ancestors(this) ensures a.IsSatisfied() {
        AncestorsStep(this, a);
      }
      return true;
    }

    /** Adds what is missing to `found`, looking behind a satisfied prerequisite only if it was never called. */
    method FindUnsatisfiedPrerequisites(found: set<Expectation>, ghost family: set<Expectation>)
      returns (result: set<Expectation>)
      requires this in family && Family(family)
      ensures result == found + Missing(this, family)
      decreases rank
    {
      hide Ancestors, Ordered, Missing, MissingOf;
      MissingDef(this, family);
      result := found;
      for i := 0 to |prerequisites|
        invariant forall p :: p in prerequisites ==> p.rank < rank && p in family
        invariant forall p :: p in prerequisites[..i] ==> p in prerequisites
        invariant result == found + MissingOf(prerequisites[..i], rank, family)
      {
        var p := prerequisites[i];
        assert prerequisites[..i + 1] == prerequisites[..i] + [p];
        MissingSnoc(prerequisites[..i], p, rank, family);
        if p.IsSatisfied() {
          if p.callCount == 0 {
            result := p.FindUnsatisfiedPrerequisites(result, family);
          }
        } else {
          result := result + {p};
        }
      }
      assert prerequisites[..|prerequisites|] == prerequisites;
    }

    /** Handles a call: an excessive one is only counted; any other retires the prerequisites,
        and this expectation too if it retires on saturation. */
    method GetActionForArguments(ghost family: set<Expectation>) returns (excessive: bool)
      requires this in family && Family(family) && Lifecycle(family)
      requires !retired && forall a :: a in Ancestors(this) ==> a.minCalls <= a.callCount <= a.maxCalls
      modifies family
      ensures Lifecycle(family)
      ensures excessive <==> old(callCount) >= maxCalls
      ensures forall x :: x in family ==> x.callCount == old(x.callCount) + if x == this then 1 else 0
      ensures forall x :: x in family ==>
                x.retired == (old(x.retired) || (!excessive && x in Ancestors(this)) ||
                              (!excessive && x == this && retiresOnSaturation && callCount >= maxCalls))
    {
      hide Ancestors, Ordered;
      NotAboveCalled(this, family);
      excessive := IsSaturated();
      callCount := callCount + 1;
      if excessive {
        return;
      }
      RetireAllPreRequisites(family);
      if retiresOnSaturation && IsSaturated() {
        Retire();
      }
    }

    /** Active, and everything it waits for has been called often enough and not too often. */
    ghost predicate ShouldHandle()
      requires Ordered(this)
      reads this, Ancestors(this)
    {
      !retired && forall a :: a in Ancestors(this) ==> a.minCalls <= a.callCount <= a.maxCalls
    }

    /** A call with matching arguments: declined unless this expectation may handle it. */
    method Invoke(ghost family: set<Expectation>) returns (handled: bool)
      requires this in family && Family(family) && Lifecycle(family)
      modifies family
      ensures Lifecycle(family)
      ensures handled <==>
                !old(retired) && forall a :: a in Ancestors(this) ==> a.minCalls <= old(a.callCount) <= a.maxCalls
      ensures !handled ==> forall x :: x in family ==> x.callCount == old(x.callCount) && x.retired == old(x.retired)
      ensures handled ==> forall x :: x in family ==> x.callCount == old(x.callCount) + if x == this then 1 else 0
      ensures handled ==> forall x :: x in family ==>
                x.retired == (old(x.retired) || (old(callCount) < maxCalls && x in Ancestors(this)) ||
                              (old(callCount) < maxCalls && x == this && retiresOnSaturation &&
                               old(callCount) + 1 >= maxCalls))
    {
      hide Ancestors, Ordered, Lifecycle;
      if retired {
        return false;
      }
      handled := AllPrerequisitesAreSatisfied(family);
      assert handled == old(ShouldHandle()) by { assert Ancestors(this) <= family; }
      if handled {
        var _ := GetActionForArguments(family);
      }
    }
  }

  /** A set of expectations together with everything they wait for. */
  ghost predicate Family(s: set<Expectation>) {
    forall x :: x in s ==> Ordered(x) && Ancestors(x) <= s
  }

  /** An expectation is never retired before all its prerequisites are. */
  ghost predicate RetiredClosed(s: set<Expectation>)
    requires Family(s)
    reads s
  {
    forall x, a :: x in s && x.retired && a in Ancestors(x) ==> a.retired
  }

  /** An expectation that has been called within its limit has all its prerequisites retired and satisfied. */
  ghost predicate CalledClosed(s: set<Expectation>)
    requires Family(s)
    reads s
  {
    forall x, a :: x in s && x.callCount > 0 && x.maxCalls > 0 && a in Ancestors(x) ==> a.retired && a.IsSatisfied()
  }

  /** What holds between any two calls. */
  ghost predicate Lifecycle(s: set<Expectation>)
    requires Family(s)
    reads s
  {
    RetiredClosed(s) && CalledClosed(s)
  }

  /** An active expectation lies above no called one, so counting its call disturbs nobody. */
  lemma NotAboveCalled(e: Expectation, s: set<Expectation>)
    requires e in s && Family(s) && Lifecycle(s) && !e.retired
    ensures forall x :: x in s && x.callCount > 0 && x.maxCalls > 0 ==> e !in Ancestors(x)
    ensures e !in Ancestors(e)
  {
  }

  /** What the search below e reports. */
  ghost function Missing(e: Expectation, family: set<Expectation>): (r: set<Expectation>)
    requires e in family && Family(family)
    reads family
    ensures r <= family
    decreases e.rank, |e.prerequisites| + 1
  {
    MissingOf(e.prerequisites, e.rank, family)
  }

  ghost function MissingOf(s: seq<Expectation>, bound: nat, family: set<Expectation>): (r: set<Expectation>)
    requires Family(family) && forall p :: p in s ==> p.rank < bound && p in family
    reads family
    ensures r <= family
    decreases bound, |s|
  {
    if s == [] then {}
    else
      var p := s[0];
      assert p in s;
      assert forall q :: q in s ==> q == p || q in s[1..];
      (if !p.IsSatisfied() then {p} else if p.callCount == 0 then Missing(p, family) else {}) +
      MissingOf(s[1..], bound, family)
  }

  ghost function RankAbove(s: seq<Expectation>): (r: nat)
    ensures forall p :: p in s ==> p.rank < r
  {
    if s == [] then 0
    else
      var r := RankAbove(s[..|s| - 1]);
      var last := s[|s| - 1];
      assert s == s[..|s| - 1] + [last];
      if last.rank < r then r else last.rank + 1
  }

  /** The prerequisite graph below e has no cycle. */
  ghost predicate Ordered(e: Expectation)
    decreases e.rank
  {
    forall p :: p in e.prerequisites ==> p.rank < e.rank && Ordered(p)
  }

  /** The transitive prerequisites of e. */
  ghost function Ancestors(e: Expectation): (s: set<Expectation>)
    requires Ordered(e)
    ensures forall p :: p in e.prerequisites ==> p in s && p.rank < e.rank && Ordered(p)
    ensures forall a :: a in s ==> a.rank < e.rank && Ordered(a)
    decreases e.rank
  {
    Above(e.prerequisites, e.rank)
  }

  /** The members of s and all their transitive prerequisites. */
  ghost function Above(s: seq<Expectation>, bound: nat): (r: set<Expectation>)
    requires forall p :: p in s ==> p.rank < bound && Ordered(p)
    ensures forall p :: p in s ==> p in r
    ensures forall a :: a in r ==> a.rank < bound && Ordered(a)
    decreases bound, |s|
  {
    if s == [] then {}
    else
      assert s[0] in s;
      assert forall p :: p in s ==> p == s[0] || p in s[1..];
      {s[0]} + Ancestors(s[0]) + Above(s[1..], bound)
  }

  lemma {:induction false} AboveIs(s: seq<Expectation>, bound: nat)
    requires forall p :: p in s ==> p.rank < bound && Ordered(p)
    ensures forall a :: a in Above(s, bound) <==> a in s || exists p :: p in s && a in Ancestors(p)
  {
    if s != [] {
      assert s[0] in s;
      assert forall p :: p in s <==> p == s[0] || p in s[1..];
      AboveIs(s[1..], bound);
    }
  }

  /** The transitive prerequisites are the immediate ones and theirs. */
  lemma AncestorsStep(e: Expectation, a: Expectation)
    requires Ordered(e)
    ensures a in Ancestors(e) <==> a in e.prerequisites || exists p :: p in e.prerequisites && a in Ancestors(p)
  {
    AboveIs(e.prerequisites, e.rank);
  }

  /** A prerequisite's prerequisites are prerequisites. */
  lemma {:induction false} AncestorsTransitive(e: Expectation, a: Expectation)
    requires Ordered(e) && a in Ancestors(e)
    ensures Ancestors(a) <= Ancestors(e)
    decreases e.rank
  {
    AncestorsStep(e, a);
    forall b | b in Ancestors(a) ensures b in Ancestors(e) {
      if a !in e.prerequisites {
        var p :| p in e.prerequisites && a in Ancestors(p);
        AncestorsTransitive(p, a);
      }
      AncestorsStep(e, b);
    }
  }

  /** They are the least set that contains the immediate ones and is closed under prerequisites. */
  lemma {:induction false} AncestorsLeast(e: Expectation, s: set<Expectation>)
    requires Ordered(e) && (forall p :: p in e.prerequisites ==> p in s)
    requires forall x, p :: x in s && p in x.prerequisites ==> p in s
    ensures Ancestors(e) <= s
    decreases e.rank
  {
    forall a | a in Ancestors(e) ensures a in s {
      AncestorsStep(e, a);
      if a !in e.prerequisites {
        var p :| p in e.prerequisites && a in Ancestors(p);
        AncestorsLeast(p, s);
      }
    }
  }

  lemma MissingDef(e: Expectation, family: set<Expectation>)
    requires e in family && Family(family)
    ensures forall p :: p in e.prerequisites ==> p.rank < e.rank && p in family
    ensures Missing(e, family) == MissingOf(e.prerequisites, e.rank, family)
    ensures MissingOf(e.prerequisites[..0], e.rank, family) == {}
  {
    PrerequisitesIn(e, family);
  }

  lemma PrerequisitesIn(e: Expectation, family: set<Expectation>)
    requires e in family && Family(family)
    ensures forall p :: p in e.prerequisites ==> p.rank < e.rank && p in family
  {
  }

  /** What one prerequisite contributes. */
  ghost function MissingAt(p: Expectation, family: set<Expectation>): (r: set<Expectation>)
    requires p in family && Family(family)
    reads family
    ensures r <= family
  {
    if !p.IsSatisfied() then {p} else if p.callCount == 0 then Missing(p, family) else {}
  }

  lemma {:induction false} MissingIs(s: seq<Expectation>, bound: nat, family: set<Expectation>)
    requires Family(family) && forall p :: p in s ==> p.rank < bound && p in family
    ensures forall m :: m in MissingOf(s, bound, family) <==> exists p :: p in s && m in MissingAt(p, family)
    decreases |s|
  {
    if s != [] {
      assert s[0] in s;
      assert forall p :: p in s <==> p == s[0] || p in s[1..];
      MissingIs(s[1..], bound, family);
    }
  }

  lemma {:induction false} MissingSnoc(s: seq<Expectation>, q: Expectation, bound: nat, family: set<Expectation>)
    requires Family(family) && forall p :: p in s + [q] ==> p.rank < bound && p in family
    ensures forall p :: p in s ==> p in s + [q]
    ensures q in s + [q]
    ensures MissingOf(s + [q], bound, family) == MissingOf(s, bound, family) + MissingAt(q, family)
    decreases |s|
  {
    assert (s + [q])[|s|] == q;
    assert forall p :: p in s ==> p in s + [q];
    if s == [] {
      assert [] + [q] == [q] && [q][1..] == [];
    } else {
      assert (s + [q])[1..] == s[1..] + [q] && (s + [q])[0] == s[0];
      MissingSnoc(s[1..], q, bound, family);
    }
  }

  /** A satisfied expectation that has been called has all its prerequisites satisfied. */
  ghost predicate CalledAreServed(s: set<Expectation>)
    requires Family(s)
    reads s
  {
    forall x, a :: x in s && x.IsSatisfied() && x.callCount > 0 && a in Ancestors(x) ==> a.IsSatisfied()
  }

  lemma LifecycleServes(s: set<Expectation>)
    requires Family(s) && Lifecycle(s)
    ensures CalledAreServed(s)
  {
    hide Ancestors, Ordered;
    forall x, a | x in s && x.IsSatisfied() && x.callCount > 0 && a in Ancestors(x) ensures a.IsSatisfied() {
      assert x.maxCalls > 0;
    }
  }

  /** What is reported is unsatisfied and really a prerequisite; and something is reported whenever
      something is missing, because whatever was called had its prerequisites satisfied. */
  lemma {:induction false} MissingIffUnsatisfied(e: Expectation, family: set<Expectation>)
    requires e in family && Family(family) && CalledAreServed(family)
    ensures forall m :: m in Missing(e, family) ==>
              m in Ancestors(e) && (m.callCount < m.minCalls || m.callCount > m.maxCalls)
    ensures Missing(e, family) == {} <==>
              forall a :: a in Ancestors(e) ==> a.minCalls <= a.callCount <= a.maxCalls
    decreases e.rank
  {
    MissingIs(e.prerequisites, e.rank, family);
    forall p | p in e.prerequisites
      ensures forall m :: m in MissingAt(p, family) ==> m in Ancestors(e) && !m.IsSatisfied()
      ensures MissingAt(p, family) == {} <==> p.IsSatisfied() && forall a :: a in Ancestors(p) ==> a.IsSatisfied()
    {
      AncestorsTransitive(e, p);
      MissingIffUnsatisfied(p, family);
    }
    forall m | m in Missing(e, family) ensures m in Ancestors(e) && !m.IsSatisfied() {
      assert m in MissingOf(e.prerequisites, e.rank, family);
      var p :| p in e.prerequisites && m in MissingAt(p, family);
    }
    forall a | a in Ancestors(e) && !a.IsSatisfied() ensures Missing(e, family) != {} {
      AncestorsStep(e, a);
      var p :| p in e.prerequisites && (a == p || a in Ancestors(p));
      var m :| m in MissingAt(p, family);
      assert m in Missing(e, family);
    }
  }

  /** A newly declared expectation keeps everything in order. */
  method Declare(ghost family: set<Expectation>, prerequisites: seq<Expectation>, minCalls: nat, maxCalls: nat,
                 retiresOnSaturation: bool)
    returns (e: Expectation)
    requires Family(family) && Lifecycle(family) && forall p :: p in prerequisites ==> p in family
    ensures fresh(e) && e.prerequisites == prerequisites
    ensures Family(family + {e}) && Lifecycle(family + {e})
  {
    e := new Expectation(prerequisites, minCalls, maxCalls, retiresOnSaturation);
    AncestorsWithin(e, family);
  }

  lemma AncestorsWithin(e: Expectation, family: set<Expectation>)
    requires Ordered(e) && Family(family) && forall p :: p in e.prerequisites ==> p in family
    ensures Ancestors(e) <= family
  {
    forall a | a in Ancestors(e) ensures a in family { AncestorsStep(e, a); }
  }

  // ----- What is reported, step by step

  /** The path leads from e to m through prerequisites that were allowed not to be called and never were, and m is
      the first on it whose calls are too few or too many. */
  ghost predicate Leads(e: Expectation, path: seq<Expectation>, m: Expectation)
    reads set x | x in path
  {
    && path != [] && path[0] in e.prerequisites
    && var p := path[0];
       if |path| == 1 then p == m && !(p.minCalls <= p.callCount <= p.maxCalls)
       else p.minCalls == 0 && p.callCount == 0 && Leads(p, path[1..], m)
  }

  lemma {:induction false} MissingIsLed(e: Expectation, family: set<Expectation>, m: Expectation)
    returns (path: seq<Expectation>)
    requires e in family && Family(family) && m in Missing(e, family)
    ensures Leads(e, path, m)
    decreases e.rank
  {
    MissingIs(e.prerequisites, e.rank, family);
    assert m in MissingOf(e.prerequisites, e.rank, family);
    var p :| p in e.prerequisites && m in MissingAt(p, family);
    if p.IsSatisfied() {
      var rest := MissingIsLed(p, family, m);
      path := [p] + rest;
      assert path[1..] == rest;
    } else {
      path := [p];
    }
  }

  lemma {:induction false} LedIsMissing(e: Expectation, family: set<Expectation>, path: seq<Expectation>,
                                        m: Expectation)
    requires e in family && Family(family) && Leads(e, path, m)
    ensures m in Missing(e, family)
    decreases |path|
  {
    MissingIs(e.prerequisites, e.rank, family);
    var p := path[0];
    if |path| > 1 { LedIsMissing(p, family, path[1..], m); }
    assert m in MissingAt(p, family);
    assert m in MissingOf(e.prerequisites, e.rank, family);
  }

  /** The search reports exactly what such a path leads to. */
  lemma MissingIffLed(e: Expectation, family: set<Expectation>, m: Expectation)
    requires e in family && Family(family)
    ensures m in Missing(e, family) <==> exists path :: Leads(e, path, m)
  {
    if m in Missing(e, family) {
      var path := MissingIsLed(e, family, m);
      assert exists q :: Leads(e, q, m) by { assert Leads(e, path, m); }
    }
    if path :| Leads(e, path, m) { LedIsMissing(e, family, path, m); }
  }

  // ----- Two expectations in sequence

  lemma OnlyPrerequisite(a: Expectation, b: Expectation)
    requires Ordered(b) && b.prerequisites == [a] && a.prerequisites == []
    ensures Ancestors(a) == {} && Ancestors(b) == {a} && a != b
  {
    var s := b.prerequisites;
    assert s[0] == a && s[1..] == [] && a in s;
    assert Above(s[1..], b.rank) == {} && Ancestors(a) == Above(a.prerequisites, a.rank) == {};
    assert Above(s, b.rank) == {a} + Ancestors(a) + Above(s[1..], b.rank);
  }

  /** An expectation of exactly n calls, and one that waits for it alone: calls to the second are declined until the
      first has handled its n calls, and handled then. */
  method HandledInSequence(a: Expectation, b: Expectation, n: nat, ghost family: set<Expectation>)
    returns (early: bool, each: bool, late: bool)
    requires a in family && b in family && Family(family) && Lifecycle(family)
    requires b.prerequisites == [a] && a.prerequisites == [] && a.minCalls == a.maxCalls == n > 0
    requires !a.retired && !b.retired && a.callCount == 0
    modifies family
    ensures !early && each && late
  {
    hide Ancestors, Ordered, Lifecycle;
    OnlyPrerequisite(a, b);
    each := true;
    early := false;
    for i := 0 to n
      invariant Family(family) && Lifecycle(family)
      invariant a.callCount == i && !b.retired && (i < n ==> !a.retired)
      invariant !early && each
    {
      var declined := b.Invoke(family);
      var handled := a.Invoke(family);
      early, each := early || declined, each && handled;
    }
    late := b.Invoke(family);
  }
}
