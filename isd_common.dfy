/** What the information-set-decoding searches of src/algorithms and
    src/attacks share: the random draws they make (a shuffle of `0..n`, a
    `choose_multiple` sample from a part), the XOR buffers they fill, and the
    way slices of a shuffle split the positions `0..n`. */
module IsdCommon {
  import opened Gf2
  import opened Syndrome

  // ---------------------------------------------------------------------------
  // Random draws, as nondeterministic choices
  // ---------------------------------------------------------------------------

  /** `part.choose_multiple(rng, size)`: `size` distinct entries of `part`. */
  predicate IsSample(s: seq<nat>, part: seq<nat>, size: nat) {
    |s| == size && Distinct(s) && forall i | 0 <= i < |s| :: s[i] in part
  }

  /** `(0..n).collect()` followed by `shuffle`: some permutation of `0..n`. */
  method Shuffled(n: nat) returns (p: seq<nat>)
    ensures IsPermutation(p, n)
  {
    assert IsPermutation(Range(0, n), n);
    p :| IsPermutation(p, n);
  }

  /** `part.choose_multiple(rng, size).cloned().collect()`, for a part without
      repeats and a size the part can supply. */
  method ChooseMultiple(part: seq<nat>, size: nat) returns (s: seq<nat>)
    requires Distinct(part) && size <= |part|
    ensures IsSample(s, part, size)
  {
    assert IsSample(part[..size], part, size);
    s :| IsSample(s, part, size);
  }

  /** Every draw is a sample of the part. */
  predicate Samples(draws: seq<seq<nat>>, part: seq<nat>, size: nat) {
    forall i | 0 <= i < |draws| :: IsSample(draws[i], part, size)
  }

  /** A sample of a part whose indices are columns of `h` can be handed to
      `calculate_partial_syndrome`. */
  lemma SampleInRange(h: Matrix, s: seq<nat>, part: seq<nat>, size: nat)
    requires IsSample(s, part, size) && (h.rows > 0 ==> AllBelow(part, h.cols))
    ensures PartialInRange(h, s, h.rows)
  {
  }

  // ---------------------------------------------------------------------------
  // XOR buffers
  // ---------------------------------------------------------------------------

  /** `for i in 0..r { acc[i] ^= v[i]; }` on a copy of `acc`, and likewise
      `needed[i] = target[i] ^ partial[i]`: the buffers always have equal length. */
  method XorAssign(acc: seq<Byte>, v: seq<Byte>) returns (r: seq<Byte>)
    requires |v| == |acc|
    ensures r == Xor(acc, v)
  {
    r := acc;
    for i := 0 to |v|
      invariant |r| == |acc|
      invariant forall j | 0 <= j < |acc| :: r[j] == if j < i then acc[j] ^ v[j] else acc[j]
    {
      r := r[i := r[i] ^ v[i]];
    }
  }

  /** Undoing one side of an XOR: the complement a search looks up. */
  lemma XorCancel(t: seq<Byte>, a: seq<Byte>)
    requires |t| == |a|
    ensures Xor(a, Xor(t, a)) == t
  {
  }

  // ---------------------------------------------------------------------------
  // Slices of a shuffle
  // ---------------------------------------------------------------------------

  /** Where x sits in the permutation p of `0..n`. */
  ghost function PositionOf(p: seq<nat>, n: nat, x: nat): (i: nat)
    requires IsPermutation(p, n) && x < n
    ensures i < n && p[i] == x
  {
    CoversRange(p, 0, n, x);
    var i :| 0 <= i < n && p[i] == x; i
  }

  /** Slicing a permutation at positions lo..hi picks out exactly the values
      whose position is in that range: consecutive slices `[0, a)`, `[a, b)`, …,
      `[c, n)` therefore put every value of `0..n` into exactly one slice. */
  lemma InSlice(p: seq<nat>, n: nat, lo: nat, hi: nat, x: nat)
    requires IsPermutation(p, n) && lo <= hi <= n && x < n
    ensures x in p[lo..hi] <==> lo <= PositionOf(p, n, x) < hi
  {
    var i := PositionOf(p, n, x);
    if x in p[lo..hi] {
      var k :| 0 <= k < hi - lo && p[lo..hi][k] == x;
      assert p[lo + k] == x;
    }
    if lo <= i < hi {
      assert p[lo..hi][i - lo] == x;
    }
  }

  /** Every entry of a slice of a permutation of `0..n` is below n. */
  lemma SliceBelow(p: seq<nat>, n: nat, lo: nat, hi: nat)
    requires IsPermutation(p, n) && lo <= hi <= n
    ensures AllBelow(p[lo..hi], n) && Distinct(p[lo..hi])
  {
  }

  /** Two non-overlapping slices of a sequence without repeats share no value. */
  lemma SlicesDisjoint(p: seq<nat>, a: nat, b: nat, c: nat, d: nat)
    requires Distinct(p) && a <= b <= c <= d <= |p|
    ensures Elems(p[a..b]) !! Elems(p[c..d])
  {
    forall x | x in Elems(p[a..b]) ensures x !in Elems(p[c..d]) {
      var i :| 0 <= i < b - a && p[a..b][i] == x;
      assert p[a + i] == x;
    }
  }

  /** The weight a vector built from index lists can have: the ones of
      `Indicator(n, Elems(s))` are at most |s|. */
  lemma IndicatorAtMost(n: nat, s: seq<nat>)
    requires AllBelow(s, n)
    ensures |Indicator(n, Elems(s))| == n && IsBinary(Indicator(n, Elems(s)))
    ensures CountOnes(Indicator(n, Elems(s))) <= |s|
  {
    IndicatorWeight(n, Elems(s));
    ElemsBound(s);
  }

  /** Two index lists without repeats that share no index concatenate to a
      list without repeats holding the indices of both. */
  lemma DisjointConcat(a: seq<nat>, b: seq<nat>)
    requires Distinct(a) && Distinct(b) && Elems(a) !! Elems(b)
    ensures Distinct(a + b) && Elems(a + b) == Elems(a) + Elems(b)
  {
    forall i, j | 0 <= i < j < |a + b| ensures (a + b)[i] != (a + b)[j] {
      if i < |a| && |a| <= j {
        assert (a + b)[i] in Elems(a) && (a + b)[j] in Elems(b);
      }
    }
  }
}
