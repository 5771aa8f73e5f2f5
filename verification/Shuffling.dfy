/** The Fisher-Yates shuffle as a map from random choices to rearrangements. */
module Shuffling {

  function Swap<E>(u: seq<E>, i: nat, j: nat): (r: seq<E>)
    requires i < |u| && j < |u|
    ensures |r| == |u| && r[i] == u[j] && r[j] == u[i]
    ensures forall k :: 0 <= k < |u| && k != i && k != j ==> r[k] == u[k]
  {
    u[i := u[j]][j := u[i]]
  }

  /** One choice per width from w down to 2, each below its width. */
  predicate ValidChoices(choices: seq<nat>, w: nat) {
    && |choices| == (if w < 2 then 0 else w - 1)
    && forall t :: 0 <= t < |choices| ==> choices[t] < w - t
  }

  /** The first w elements of u shuffled by the choices. */
  function Shuffled<E>(u: seq<E>, w: nat, choices: seq<nat>): (r: seq<E>)
    requires w <= |u| && ValidChoices(choices, w)
    ensures |r| == |u|
    decreases w
  {
    if w < 2 then u else Shuffled(Swap(u, choices[0], w - 1), w - 1, choices[1..])
  }

  /** std::swap on two elements of a range. */
  method SwapInRange<E>(v: array<E>, begin: nat, end: nat, i: nat, j: nat)
    requires begin <= end <= v.Length && i < end - begin && j < end - begin
    modifies v
    ensures v[begin..end] == Swap(old(v[begin..end]), i, j)
    ensures v[..begin] == old(v[..begin]) && v[end..] == old(v[end..])
  {
    v[begin + i], v[begin + j] := v[begin + j], v[begin + i];
  }

  lemma ShuffledStep<E>(u: seq<E>, w: nat, choices: seq<nat>)
    requires 2 <= w <= |u| && ValidChoices(choices, w)
    ensures choices != [] && choices[0] < w && ValidChoices(choices[1..], w - 1)
    ensures Shuffled(u, w, choices) == Shuffled(Swap(u, choices[0], w - 1), w - 1, choices[1..])
  {
  }

  /** Shuffles v[begin..end] in place; `choices` are what the random source generates, in order. */
  method ShuffleRange<E>(choices: seq<nat>, begin: nat, end: nat, v: array<E>)
    requires begin <= end <= v.Length && ValidChoices(choices, end - begin)
    modifies v
    ensures v[begin..end] == Shuffled(old(v[begin..end]), end - begin, choices)
    ensures v[..begin] == old(v[..begin]) && v[end..] == old(v[end..])
  {
    hide Swap, Shuffled, ValidChoices;
    var rangeWidth: nat := end - begin;
    var rest := choices;
    ghost var result := Shuffled(v[begin..end], rangeWidth, rest);
    while rangeWidth >= 2
      invariant rangeWidth <= end - begin && ValidChoices(rest, rangeWidth)
      invariant Shuffled(v[begin..end], rangeWidth, rest) == result
      invariant v[..begin] == old(v[..begin]) && v[end..] == old(v[end..])
    {
      ShuffledStep(v[begin..end], rangeWidth, rest);
      var selected := rest[0];
      SwapInRange(v, begin, end, selected, rangeWidth - 1);
      rest := rest[1..];
      rangeWidth := rangeWidth - 1;
    }
    ShuffledNarrow(v[begin..end], rangeWidth, rest);
  }

  lemma ShuffledNarrow<E>(u: seq<E>, w: nat, choices: seq<nat>)
    requires w < 2 && w <= |u| && ValidChoices(choices, w)
    ensures Shuffled(u, w, choices) == u
  {
  }

  // ----- A shuffle is a rearrangement

  lemma SwapKeepsElements<E>(u: seq<E>, i: nat, j: nat)
    requires i < |u| && j < |u|
    ensures multiset(Swap(u, i, j)) == multiset(u)
  {
  }

  /** Shuffling keeps the elements, and everything beyond the shuffled width. */
  lemma {:induction false} ShuffledIsRearrangement<E>(u: seq<E>, w: nat, choices: seq<nat>)
    requires w <= |u| && ValidChoices(choices, w)
    ensures multiset(Shuffled(u, w, choices)) == multiset(u)
    ensures Shuffled(u, w, choices)[w..] == u[w..]
    decreases w
  {
    if w >= 2 {
      var u' := Swap(u, choices[0], w - 1);
      SwapKeepsElements(u, choices[0], w - 1);
      ShuffledIsRearrangement(u', w - 1, choices[1..]);
      assert u'[w..] == u[w..];
      assert Shuffled(u', w - 1, choices[1..])[w - 1..][1..] == u'[w - 1..][1..];
    }
  }

  /** The last element of the range is final after the first step. */
  lemma ShuffledLast<E>(u: seq<E>, w: nat, choices: seq<nat>)
    requires 2 <= w <= |u| && ValidChoices(choices, w)
    ensures Shuffled(u, w, choices)[w - 1] == u[choices[0]]
  {
    var u' := Swap(u, choices[0], w - 1);
    ShuffledIsRearrangement(u', w - 1, choices[1..]);
    assert Shuffled(u', w - 1, choices[1..])[w - 1..][0] == u'[w - 1..][0];
  }

  // ----- And every rearrangement comes from exactly one sequence of choices

  predicate Distinct<E(==)>(u: seq<E>) {
    forall i, j :: 0 <= i < j < |u| ==> u[i] != u[j]
  }

  lemma SwapDistinct<E>(u: seq<E>, i: nat, j: nat)
    requires Distinct(u) && i < |u| && j < |u|
    ensures Distinct(Swap(u, i, j))
  {
  }

  /** Different choices give different results. */
  lemma {:induction false} ShuffledInjective<E>(u: seq<E>, w: nat, c: seq<nat>, d: seq<nat>)
    requires Distinct(u) && w <= |u| && ValidChoices(c, w) && ValidChoices(d, w)
    requires Shuffled(u, w, c) == Shuffled(u, w, d)
    ensures c == d
    decreases w
  {
    if w >= 2 {
      ShuffledLast(u, w, c);
      ShuffledLast(u, w, d);
      assert c[0] == d[0];
      SwapDistinct(u, c[0], w - 1);
      ShuffledInjective(Swap(u, c[0], w - 1), w - 1, c[1..], d[1..]);
      assert c == [c[0]] + c[1..] && d == [d[0]] + d[1..];
    }
  }

  ghost predicate IsRearrangement<E(!new)>(u: seq<E>, t: seq<E>, w: nat) {
    w <= |u| == |t| && u[w..] == t[w..] && multiset(u) == multiset(t)
  }

  /** An element of the range stands somewhere in the range of any rearrangement. */
  lemma FindInRange<E(!new)>(u: seq<E>, t: seq<E>, w: nat) returns (i: nat)
    requires 1 <= w && IsRearrangement(u, t, w)
    ensures i < w && u[i] == t[w - 1]
  {
    assert u == u[..w] + u[w..] && t == t[..w] + t[w..];
    assert multiset(u[..w]) == multiset(u) - multiset(u[w..]);
    assert multiset(t[..w]) == multiset(t) - multiset(t[w..]);
    assert t[..w][w - 1] == t[w - 1];
    assert t[w - 1] in multiset(t[..w]);
    assert t[w - 1] in u[..w];
    i :| 0 <= i < w && u[..w][i] == t[w - 1];
  }

  /** Every rearrangement of the range is reached by some choices. */
  lemma {:induction false} ShuffledSurjective<E(!new)>(u: seq<E>, t: seq<E>, w: nat) returns (choices: seq<nat>)
    requires IsRearrangement(u, t, w)
    ensures ValidChoices(choices, w) && Shuffled(u, w, choices) == t
    decreases w
  {
    hide Swap, Shuffled, IsRearrangement, ValidChoices;
    if w < 2 {
      choices := [];
      NarrowRearrangement(u, t, w);
    } else {
      var i := FindInRange(u, t, w);
      WithinRange(u, t, w);
      RearrangementStep(u, t, w, i);
      var rest := ShuffledSurjective(Swap(u, i, w - 1), t, w - 1);
      choices := [i] + rest;
      ValidCons(i, rest, w);
      ShuffledStep(u, w, choices);
      assert choices[1..] == rest;
    }
  }

  lemma WithinRange<E(!new)>(u: seq<E>, t: seq<E>, w: nat)
    requires IsRearrangement(u, t, w)
    ensures w <= |u|
  {
  }

  lemma NarrowRearrangement<E(!new)>(u: seq<E>, t: seq<E>, w: nat)
    requires w < 2 && IsRearrangement(u, t, w)
    ensures ValidChoices([], w) && Shuffled(u, w, []) == t
  {
    if w == 0 {
      assert u[0..] == u && t[0..] == t;
    } else {
      var i := FindInRange(u, t, 1);
      assert u == [u[0]] + u[1..] && t == [t[0]] + t[1..];
    }
  }

  lemma ValidCons(i: nat, rest: seq<nat>, w: nat)
    requires w >= 2 && i < w && ValidChoices(rest, w - 1)
    ensures ValidChoices([i] + rest, w)
  {
    var choices := [i] + rest;
    forall k | 0 <= k < |choices| ensures choices[k] < w - k {
      if k > 0 { assert rest[k - 1] < w - 1 - (k - 1); }
    }
  }

  lemma RearrangementStep<E(!new)>(u: seq<E>, t: seq<E>, w: nat, i: nat)
    requires w >= 2 && IsRearrangement(u, t, w) && i < w && u[i] == t[w - 1]
    ensures IsRearrangement(Swap(u, i, w - 1), t, w - 1)
  {
    var u' := Swap(u, i, w - 1);
    SwapKeepsElements(u, i, w - 1);
    hide Swap;
    assert u'[w..] == u[w..];
    assert u'[w - 1..] == [u[i]] + u'[w..] && t[w - 1..] == [t[w - 1]] + t[w..];
  }

  /** For distinct elements, choices and rearrangements correspond one to one. */
  lemma ShuffleIsBijection<E(!new)>(u: seq<E>, t: seq<E>, w: nat)
    requires Distinct(u) && w <= |u|
    ensures IsRearrangement(u, t, w) <==> exists c :: ValidChoices(c, w) && Shuffled(u, w, c) == t
    ensures forall c, d ::
              ValidChoices(c, w) && ValidChoices(d, w) && Shuffled(u, w, c) == t == Shuffled(u, w, d) ==> c == d
  {
    if IsRearrangement(u, t, w) {
      var c := ShuffledSurjective(u, t, w);
      assert ValidChoices(c, w) && Shuffled(u, w, c) == t;
    }
    if c :| ValidChoices(c, w) && Shuffled(u, w, c) == t {
      ShuffledIsRearrangement(u, w, c);
    }
    forall c, d | ValidChoices(c, w) && ValidChoices(d, w) && Shuffled(u, w, c) == t == Shuffled(u, w, d)
      ensures c == d
    {
      ShuffledInjective(u, w, c, d);
    }
  }
}
