/** The matrix bits as a binary counter, least significant bit first. */
module GraphCounter {

  lemma IncrementAt(bits: seq<bool>, now: seq<bool>, k: nat)
    requires |now| == |bits| && k < |bits| && !bits[k] && now[k]
    requires forall i :: 0 <= i < k ==> bits[i] && !now[i]
    requires forall i :: k < i < |bits| ==> now[i] == bits[i]
    ensures Increment(bits) == (now, true)
  {
    IncrementClearsOnes(bits, k);
    assert now == Empty(k) + [true] + bits[k + 1..];
  }

  /** Adds one; the flag is false exactly when the carry runs off the end. */
  function Increment(bits: seq<bool>): (r: (seq<bool>, bool))
    ensures |r.0| == |bits|
  {
    if bits == [] then ([], false)
    else if !bits[0] then ([true] + bits[1..], true)
    else
      var (rest, more) := Increment(bits[1..]);
      ([false] + rest, more)
  }

  ghost function Value(bits: seq<bool>): nat {
    if bits == [] then 0 else (if bits[0] then 1 else 0) + 2 * Value(bits[1..])
  }

  ghost function Pow2(n: nat): (p: nat)
    ensures p >= 1
  {
    if n == 0 then 1 else 2 * Pow2(n - 1)
  }

  function Empty(n: nat): (bits: seq<bool>)
    ensures |bits| == n && forall i :: 0 <= i < n ==> !bits[i]
  {
    seq(n, _ => false)
  }

  lemma EmptyTail(bits: seq<bool>)
    requires bits != []
    ensures bits == Empty(|bits|) <==> !bits[0] && bits[1..] == Empty(|bits| - 1)
  {
    assert bits == [bits[0]] + bits[1..];
    assert [false] + Empty(|bits| - 1) == Empty(|bits|);
  }

  /** What the loop leaves after clearing the k leading ones. */
  lemma {:induction false} IncrementClearsOnes(bits: seq<bool>, k: nat)
    requires k <= |bits| && forall i :: 0 <= i < k ==> bits[i]
    ensures k == |bits| ==> Increment(bits) == (Empty(k), false)
    ensures k < |bits| && !bits[k] ==> Increment(bits) == (Empty(k) + [true] + bits[k + 1..], true)
  {
    if k == 0 {
      if |bits| > 0 { assert Empty(0) + [true] + bits[1..] == [true] + bits[1..]; }
      assert Empty(0) == [];
    } else {
      IncrementClearsOnes(bits[1..], k - 1);
      assert [false] + Empty(k - 1) == Empty(k);
      if k < |bits| && !bits[k] {
        assert bits[1..][k..] == bits[k + 1..];
        assert [false] + (Empty(k - 1) + [true] + bits[k + 1..]) == Empty(k) + [true] + bits[k + 1..];
      }
    }
  }

  lemma {:induction false} ValueRange(bits: seq<bool>)
    ensures Value(bits) < Pow2(|bits|)
    ensures Value(bits) == 0 <==> bits == Empty(|bits|)
  {
    if bits != [] {
      ValueRange(bits[1..]);
      EmptyTail(bits);
    }
  }

  lemma {:induction false} ValueInjective(a: seq<bool>, b: seq<bool>)
    requires |a| == |b| && Value(a) == Value(b)
    ensures a == b
  {
    if a != [] {
      ValueInjective(a[1..], b[1..]);
      assert a == [a[0]] + a[1..] && b == [b[0]] + b[1..];
    }
  }

  /** Increment adds one modulo 2^n, and its flag says whether the result is non-empty. */
  lemma {:induction false} IncrementAddsOne(bits: seq<bool>)
    ensures var (next, more) := Increment(bits);
      && (more <==> next != Empty(|bits|))
      && Value(bits) + 1 == if more then Value(next) else Pow2(|bits|)
  {
    var (next, more) := Increment(bits);
    if bits == [] {
      assert next == Empty(0);
    } else if !bits[0] {
      assert next[0] && next[1..] == bits[1..];
    } else {
      IncrementAddsOne(bits[1..]);
      assert !next[0] && next[1..] == Increment(bits[1..]).0;
      EmptyTail(next);
    }
  }

  /** The graph reached from the empty one by k steps. */
  function GraphAfter(n: nat, k: nat): (bits: seq<bool>)
    ensures |bits| == n
  {
    if k == 0 then Empty(n) else Increment(GraphAfter(n, k - 1)).0
  }

  lemma {:induction false} GraphAfterHasValue(n: nat, k: nat)
    requires k < Pow2(n)
    ensures Value(GraphAfter(n, k)) == k
    ensures Increment(GraphAfter(n, k)).1 <==> k + 1 < Pow2(n)
  {
    if k == 0 {
      ValueRange(Empty(n));
    } else {
      GraphAfterHasValue(n, k - 1);
      IncrementAddsOne(GraphAfter(n, k - 1));
    }
    IncrementAddsOne(GraphAfter(n, k));
    ValueRange(Increment(GraphAfter(n, k)).0);
  }

  /** From the empty graph, stepping visits each of the 2^n graphs exactly once and then wraps around. */
  lemma EveryGraphExactlyOnce(n: nat)
    ensures forall k :: 0 <= k < Pow2(n) ==> (Increment(GraphAfter(n, k)).1 <==> k != Pow2(n) - 1)
    ensures GraphAfter(n, Pow2(n)) == Empty(n)
    ensures forall j, k :: 0 <= j < k < Pow2(n) ==> GraphAfter(n, j) != GraphAfter(n, k)
    ensures forall bits: seq<bool> :: |bits| == n ==> Value(bits) < Pow2(n) && GraphAfter(n, Value(bits)) == bits
  {
    hide Increment, Value, Pow2, Empty, GraphAfter;
    forall k | 0 <= k < Pow2(n)
      ensures Value(GraphAfter(n, k)) == k && (Increment(GraphAfter(n, k)).1 <==> k != Pow2(n) - 1)
    {
      GraphAfterHasValue(n, k);
    }
    WrapsAround(n);
    forall bits: seq<bool> | |bits| == n ensures Value(bits) < Pow2(n) && GraphAfter(n, Value(bits)) == bits {
      EveryGraphIsReached(n, bits);
    }
  }

  lemma WrapsAround(n: nat)
    ensures GraphAfter(n, Pow2(n)) == Empty(n)
  {
    hide Increment, Value, Pow2;
    GraphAfterHasValue(n, Pow2(n) - 1);
    IncrementAddsOne(GraphAfter(n, Pow2(n) - 1));
  }

  lemma EveryGraphIsReached(n: nat, bits: seq<bool>)
    requires |bits| == n
    ensures Value(bits) < Pow2(n) && GraphAfter(n, Value(bits)) == bits
  {
    hide Increment, Value, Pow2, GraphAfter;
    ValueRange(bits);
    GraphAfterHasValue(n, Value(bits));
    ValueInjective(GraphAfter(n, Value(bits)), bits);
  }
}
