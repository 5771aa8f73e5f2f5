/** Find and replace with a moving cursor, as one loop over (source, replacement) pairs. */
module Splicing {
  import opened Wrappers

  /** A text with slots, each holding a source to be replaced by a chunk. */
  datatype Template =
    | End(lit: string)
    | Slot(lit: string, src: string, chunk: string, rest: Template)

  function Original(t: Template): string {
    match t
    case End(lit) => lit
    case Slot(lit, src, _, rest) => lit + src + Original(rest)
  }

  /** The meaning of the splice: each source replaced where it stands. */
  function Filled(t: Template): string {
    match t
    case End(lit) => lit
    case Slot(lit, _, chunk, rest) => lit + chunk + Filled(rest)
  }

  function Replacements(t: Template): seq<(string, string)> {
    match t
    case End(_) => []
    case Slot(_, src, chunk, rest) => [(src, chunk)] + Replacements(rest)
  }

  /** Each chunk is longer than its source and starts with another character. */
  predicate Fits(t: Template) {
    t.Slot? ==> t.src != "" && |t.src| < |t.chunk| && t.src[0] != t.chunk[0] && Fits(t.rest)
  }

  // ----- Find and replace with a moving cursor

  predicate OccursAt(s: string, pat: string, i: nat) {
    i + |pat| <= |s| && s[i..i + |pat|] == pat
  }

  /** std::string::find: the first occurrence at or after `from`. */
  function Find(s: string, pat: string, from: nat): (r: Option<nat>)
    ensures r.Some? ==> from <= r.value && OccursAt(s, pat, r.value)
    ensures forall i: nat :: from <= i && OccursAt(s, pat, i) ==> r.Some? && r.value <= i
    decreases |s| - from
  {
    if OccursAt(s, pat, from) then Some(from)
    else if from >= |s| then None
    else Find(s, pat, from + 1)
  }

  /** The splice loop; the cursor advances by the length of the replaced text. None is the "library error". */
  function Splice(s: string, it: nat, reps: seq<(string, string)>): Option<string>
    decreases |reps|
  {
    if reps == [] then Some(s)
    else
      match Find(s, reps[0].0, it)
      case None => None
      case Some(q) =>
        Splice(Replaced(s, q, |reps[0].0|, reps[0].1), q + |reps[0].0|, reps[1..])
  }

  function Replaced(s: string, q: nat, n: nat, chunk: string): string
    requires q + n <= |s|
  {
    s[..q] + chunk + s[q + n..]
  }

  /** Splicing never fails: the next source always lies at or behind the cursor. */
  lemma {:induction false} SpliceFinds(t: Template, d: string, it: nat)
    requires Fits(t) && it <= |d|
    ensures Splice(d + Original(t), it, Replacements(t)).Some?
    decreases t
  {
    hide Splice, Find, Original, Replacements;
    if t.Slot? {
      var q := FindSlot(t, d, it);
      var d' := SuffixAfterSlot(t, d, q);
      SpliceOnce(t, d + Original(t), it, q);
      SpliceFinds(t.rest, d', q + |t.src|);
    } else {
      SpliceEnd(t, d, it);
    }
  }

  lemma SpliceOnce(t: Template, s: string, it: nat, q: nat)
    requires t.Slot? && Find(s, t.src, it) == Some(q)
    ensures Splice(s, it, Replacements(t)) ==
              Splice(Replaced(s, q, |t.src|, t.chunk), q + |t.src|, Replacements(t.rest))
  {
    hide Find, Replaced;
    assert Replacements(t)[0] == (t.src, t.chunk) && Replacements(t)[1..] == Replacements(t.rest);
  }

  lemma SuffixAfterSlot(t: Template, d: string, q: nat) returns (d': string)
    requires t.Slot? && q <= |d| + |t.lit|
    ensures q + |t.src| <= |d + Original(t)|
    ensures Replaced(d + Original(t), q, |t.src|, t.chunk) == d' + Original(t.rest) && q + |t.chunk| <= |d'|
  {
    var s, rest := d + Original(t), Original(t.rest);
    assert s == (d + t.lit + t.src) + rest;
    d' := SuffixKept(s, q, t.src, t.chunk, rest);
  }

  lemma SuffixKept(s: string, q: nat, src: string, chunk: string, rest: string) returns (d: string)
    requires q + |src| + |rest| <= |s| && s[|s| - |rest|..] == rest
    ensures Replaced(s, q, |src|, chunk) == d + rest && q + |chunk| <= |d|
  {
    d := s[..q] + chunk + s[q + |src|..|s| - |rest|];
    assert s[q + |src|..] == s[q + |src|..|s| - |rest|] + rest;
  }

  /** No source is met before its own place, searching from the cursor's place in the previous chunk. */
  predicate NoStraySource(t: Template, before: string)
    requires Fits(t)
  {
    t.Slot? ==>
      && Find(before + t.lit + t.src, t.src, 0) == Some(|before| + |t.lit|)
      && NoStraySource(t.rest, t.chunk[|t.src|..])
  }

  lemma OccursWithin(a: string, mid: string, b: string, pat: string, i: nat)
    requires i + |pat| <= |mid|
    ensures OccursAt(mid, pat, i) <==> OccursAt(a + mid + b, pat, |a| + i)
  {
    assert mid[i..i + |pat|] == (a + mid + b)[|a| + i..|a| + i + |pat|];
  }

  /** Where find stops is decided by the text up to the end of the source itself. */
  lemma FindIsLocal(a: string, mid: string, more: string, src: string, at: nat)
    requires src != "" && at + |src| == |mid| && OccursAt(mid, src, at)
    ensures Find(a + mid + more, src, |a|).Some?
    ensures Find(a + mid + more, src, |a|).value <= |a| + at
    ensures Find(a + mid + more, src, |a|).value == |a| + at <==> Find(mid, src, 0) == Some(at)
  {
    hide Find, OccursAt;
    var s := a + mid + more;
    OccursWithin(a, mid, more, src, at);
    var q := Find(s, src, |a|).value;
    OccursWithin(a, mid, more, src, q - |a|);
    OccursWithin(a, mid, more, src, Find(mid, src, 0).value);
  }

  /** What lies before the cursor is final. */
  lemma {:induction false} SpliceKeepsPrefix(s: string, it: nat, reps: seq<(string, string)>)
    requires it <= |s| && Splice(s, it, reps).Some?
    requires forall i :: 0 <= i < |reps| ==> |reps[i].0| <= |reps[i].1|
    ensures it <= |Splice(s, it, reps).value| && Splice(s, it, reps).value[..it] == s[..it]
    decreases |reps|
  {
    hide Find, Replaced, Splice;
    SpliceUnfold(s, it, reps);
    if reps != [] {
      var q := Find(s, reps[0].0, it).value;
      var s', it' := Replaced(s, q, |reps[0].0|, reps[0].1), q + |reps[0].0|;
      ReplacedKeepsPrefix(s, q, |reps[0].0|, reps[0].1, it);
      SpliceKeepsPrefix(s', it', reps[1..]);
      PrefixOfPrefix(Splice(s', it', reps[1..]).value, s', it', it);
    }
  }

  lemma SpliceUnfold(s: string, it: nat, reps: seq<(string, string)>)
    ensures reps == [] ==> Splice(s, it, reps) == Some(s)
    ensures reps != [] && Splice(s, it, reps).Some? ==>
              && Find(s, reps[0].0, it).Some?
              && var q := Find(s, reps[0].0, it).value;
                 Splice(s, it, reps) == Splice(Replaced(s, q, |reps[0].0|, reps[0].1), q + |reps[0].0|, reps[1..])
  {
  }

  lemma PrefixOfPrefix(g: string, s: string, m: nat, it: nat)
    requires it <= m <= |g| && m <= |s| && g[..m] == s[..m]
    ensures g[..it] == s[..it]
  {
    assert g[..m][..it] == g[..it] && s[..m][..it] == s[..it];
  }

  lemma ReplacedKeepsPrefix(s: string, q: nat, n: nat, chunk: string, it: nat)
    requires it <= q && q + n <= |s| && n <= |chunk|
    ensures q + n <= |Replaced(s, q, n, chunk)| && Replaced(s, q, n, chunk)[..it] == s[..it]
  {
  }

  lemma {:induction false} ReplacementsGrow(t: Template)
    requires Fits(t)
    ensures forall i :: 0 <= i < |Replacements(t)| ==> |Replacements(t)[i].0| <= |Replacements(t)[i].1|
  {
    if t.Slot? { ReplacementsGrow(t.rest); }
  }

  lemma ReplacedInPlace(done: string, lit: string, src: string, more: string, chunk: string)
    ensures Replaced(done + (lit + src + more), |done| + |lit|, |src|, chunk) == done + lit + chunk + more
  {
    var s := done + (lit + src + more);
    assert s[..|done| + |lit|] == done + lit;
    assert s[|done| + |lit| + |src|..] == more;
  }

  lemma SlotText(t: Template, done: string, it: nat)
    requires t.Slot? && it <= |done|
    ensures done + Original(t) == done[..it] + (done[it..] + t.lit + t.src) + Original(t.rest)
    ensures OccursAt(done[it..] + t.lit + t.src, t.src, |done[it..]| + |t.lit|)
  {
    var more := Original(t.rest);
    assert done == done[..it] + done[it..];
    assert done + (t.lit + t.src + more) == done[..it] + (done[it..] + t.lit + t.src) + more;
  }

  lemma FindSlot(t: Template, done: string, it: nat) returns (q: nat)
    requires t.Slot? && t.src != "" && it <= |done|
    ensures Find(done + Original(t), t.src, it) == Some(q) && q <= |done| + |t.lit|
    ensures q == |done| + |t.lit| <==> Find(done[it..] + t.lit + t.src, t.src, 0) == Some(|done[it..]| + |t.lit|)
  {
    hide Find, OccursAt, Original;
    SlotText(t, done, it);
    FindIsLocal(done[..it], done[it..] + t.lit + t.src, Original(t.rest), t.src, |done[it..]| + |t.lit|);
    q := Find(done + Original(t), t.src, it).value;
  }

  lemma SpliceStep(t: Template, done: string, it: nat)
    requires t.Slot? && Find(done + Original(t), t.src, it) == Some(|done| + |t.lit|)
    ensures Splice(done + Original(t), it, Replacements(t)) ==
              Splice(done + t.lit + t.chunk + Original(t.rest), |done| + |t.lit| + |t.src|, Replacements(t.rest))
  {
    ReplacedInPlace(done, t.lit, t.src, Original(t.rest), t.chunk);
    SpliceOnce(t, done + Original(t), it, |done| + |t.lit|);
  }

  lemma FilledStep(t: Template, done: string)
    requires t.Slot?
    ensures done + Filled(t) == done + t.lit + t.chunk + Filled(t.rest)
  {
  }

  /** The loop replaces each source in its own place exactly when no stray source precedes it. */
  lemma {:induction false} SpliceFrom(t: Template, done: string, it: nat)
    requires Fits(t) && it <= |done|
    ensures Splice(done + Original(t), it, Replacements(t)) == Some(done + Filled(t)) <==> NoStraySource(t, done[it..])
    decreases t
  {
    hide Splice, Find, Original, Filled, Replacements, NoStraySource;
    if t.Slot? {
      var q := FindSlot(t, done, it);
      if q == |done| + |t.lit| {
        var done' := done + t.lit + t.chunk;
        SpliceStep(t, done, it);
        FilledStep(t, done);
        NoStrayStep(t, done, it);
        SpliceFrom(t.rest, done', q + |t.src|);
      } else {
        SpliceFinds(t, done, it);
        StraySpliceDiffers(t, done, it, q);
        StrayHere(t, done, it);
      }
    } else {
      SpliceEnd(t, done, it);
    }
  }

  lemma SpliceEnd(t: Template, done: string, it: nat)
    requires t.End? && it <= |done|
    ensures Splice(done + Original(t), it, Replacements(t)) == Some(done + Filled(t)) && NoStraySource(t, done[it..])
  {
  }

  lemma StrayHere(t: Template, done: string, it: nat)
    requires t.Slot? && Fits(t) && it <= |done|
    requires Find(done[it..] + t.lit + t.src, t.src, 0) != Some(|done[it..]| + |t.lit|)
    ensures !NoStraySource(t, done[it..])
  {
  }

  lemma NoStrayStep(t: Template, done: string, it: nat)
    requires t.Slot? && Fits(t) && it <= |done|
    requires Find(done[it..] + t.lit + t.src, t.src, 0) == Some(|done[it..]| + |t.lit|)
    ensures NoStraySource(t, done[it..]) <==>
              NoStraySource(t.rest, (done + t.lit + t.chunk)[|done| + |t.lit| + |t.src|..])
  {
    assert (done + t.lit + t.chunk)[|done| + |t.lit| + |t.src|..] == t.chunk[|t.src|..];
  }

  /** A chunk put in the wrong place shows in the character it starts with. */
  lemma StraySpliceDiffers(t: Template, done: string, it: nat, q: nat)
    requires t.Slot? && Fits(t) && it <= |done|
    requires Find(done + Original(t), t.src, it) == Some(q) && q < |done| + |t.lit|
    requires Splice(done + Original(t), it, Replacements(t)).Some?
    ensures Splice(done + Original(t), it, Replacements(t)) != Some(done + Filled(t))
  {
    var s := done + Original(t);
    SplicePuts(t, s, it, q);
    assert s[q] == s[q..q + |t.src|][0];
    assert s[q] == (done + t.lit)[q] == (done + Filled(t))[q];
  }

  lemma SplicePuts(t: Template, s: string, it: nat, q: nat)
    requires t.Slot? && Fits(t) && Find(s, t.src, it) == Some(q) && Splice(s, it, Replacements(t)).Some?
    ensures q < |Splice(s, it, Replacements(t)).value| && Splice(s, it, Replacements(t)).value[q] == t.chunk[0]
  {
    var s' := Replaced(s, q, |t.src|, t.chunk);
    ReplacementsGrow(t.rest);
    assert Replacements(t)[1..] == Replacements(t.rest);
    SpliceKeepsPrefix(s', q + |t.src|, Replacements(t.rest));
    var g := Splice(s, it, Replacements(t)).value;
    assert g[q] == g[..q + |t.src|][q] == s'[..q + |t.src|][q];
  }
}
