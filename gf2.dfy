/** Bit vectors over GF(2), binary matrices and index sets: the data model shared
    by the code constructors, the syndrome kernels and the decoders. Entries are
    `u8` in the source and `bv8` here, so `^` and `&` are the source's operators
    and `+`/`*` wrap modulo 256 exactly as `u8` arithmetic does. */
module Gf2 {

  type Byte = bv8

  /** Rust's `Option<T>`. */
  datatype Option<T> = None | Some(value: T)

  function Min(a: int, b: int): int { if a <= b then a else b }

  function Max(a: int, b: int): int { if a <= b then b else a }

  /** An `Array2<u8>` of shape `rows` x `cols` stored row by row. */
  datatype Matrix = Matrix(rows: nat, cols: nat, at: seq<seq<Byte>>) {
    predicate Valid() {
      |at| == rows && forall i | 0 <= i < |at| :: |at[i]| == cols
    }

    /** Every entry is 0 or 1. */
    predicate Binary()
      requires Valid()
    {
      forall i, j | 0 <= i < rows && 0 <= j < cols :: at[i][j] <= 1
    }
  }

  /** `Array2::zeros((rows, cols))`. */
  function ZeroMatrix(rows: nat, cols: nat): (z: Matrix)
    ensures z.Valid() && z.rows == rows && z.cols == cols
    ensures forall i, j | 0 <= i < rows && 0 <= j < cols :: z.at[i][j] == 0
  {
    Matrix(rows, cols, seq(rows, _ => Zeros(cols)))
  }

  /** `a[[i, j]] = v`: one entry changes, nothing else does. */
  function SetEntry(a: Matrix, i: nat, j: nat, v: Byte): (b: Matrix)
    requires a.Valid() && i < a.rows && j < a.cols
    ensures b.Valid() && b.rows == a.rows && b.cols == a.cols
    ensures forall r, c | 0 <= r < a.rows && 0 <= c < a.cols ::
      b.at[r][c] == if r == i && c == j then v else a.at[r][c]
  {
    a.(at := a.at[i := a.at[i][j := v]])
  }

  /** Two matrices of the same shape with the same entries are equal. */
  lemma MatrixExt(a: Matrix, b: Matrix)
    requires a.Valid() && b.Valid() && a.rows == b.rows && a.cols == b.cols
    requires forall i, j | 0 <= i < a.rows && 0 <= j < a.cols :: a.at[i][j] == b.at[i][j]
    ensures a == b
  {
    assert forall i | 0 <= i < a.rows :: a.at[i] == b.at[i];
  }

  /** `vec![0; n]`. */
  function Zeros(n: nat): (z: seq<Byte>)
    ensures |z| == n && forall i | 0 <= i < n :: z[i] == 0
  {
    seq(n, _ => 0)
  }

  predicate IsZero(v: seq<Byte>) {
    forall i | 0 <= i < |v| :: v[i] == 0
  }

  predicate IsBinary(v: seq<Byte>) {
    forall i | 0 <= i < |v| :: v[i] <= 1
  }

  /** `a.iter().zip(b).map(|(x, y)| x ^ y)`: XOR over the common prefix. */
  function Xor(a: seq<Byte>, b: seq<Byte>): (r: seq<Byte>)
    ensures |r| == Min(|a|, |b|)
    ensures forall i | 0 <= i < |r| :: r[i] == a[i] ^ b[i]
  {
    seq(Min(|a|, |b|), i requires 0 <= i < Min(|a|, |b|) => a[i] ^ b[i])
  }

  /** The standard basis vector: a single 1 at position `c` of a length-`n` vector. */
  function Unit(n: nat, c: nat): (u: seq<Byte>)
    ensures |u| == n
  {
    seq(n, i => if i == c then 1 else 0)
  }

  /** The 0/1 vector of length `n` whose ones are the positions in `s`: what the
      decoders build with `vec![0; n]` followed by `v[i] = 1` for every chosen `i`. */
  function Indicator(n: nat, s: set<nat>): (v: seq<Byte>)
    ensures |v| == n
    ensures forall i | 0 <= i < n :: v[i] == (if i in s then 1 else 0)
  {
    seq(n, i => if i in s then 1 else 0)
  }

  /** Number of entries equal to exactly 1. */
  function CountOnes(v: seq<Byte>): nat {
    if |v| == 0 then 0 else CountOnes(v[..|v| - 1]) + (if v[|v| - 1] == 1 then 1 else 0)
  }

  function Elems<T>(s: seq<T>): set<T> {
    set x | x in s
  }

  predicate Distinct<T(==)>(s: seq<T>) {
    forall i, j | 0 <= i < j < |s| :: s[i] != s[j]
  }

  function Pow2(k: nat): (p: nat)
    ensures p >= 1
  {
    if k == 0 then 1 else 2 * Pow2(k - 1)
  }

  predicate AllBelow(s: seq<nat>, n: nat) {
    forall i | 0 <= i < |s| :: s[i] < n
  }

  /** `p` lists every index of `0..n` exactly once (what a shuffle of `(0..n).collect()` yields). */
  predicate IsPermutation(p: seq<nat>, n: nat) {
    |p| == n && AllBelow(p, n) && Distinct(p)
  }

  /** `0..n` as a sequence. */
  function Range(lo: nat, hi: nat): (r: seq<nat>)
    requires lo <= hi
    ensures |r| == hi - lo && forall i | 0 <= i < |r| :: r[i] == lo + i
  {
    seq(hi - lo, i => lo + i)
  }

  /** `p` is a reordering of the indices `lo..hi`. */
  predicate IsShuffleOf(p: seq<nat>, lo: nat, hi: nat) {
    lo <= hi && |p| == hi - lo && Distinct(p) && forall i | 0 <= i < |p| :: lo <= p[i] < hi
  }

  /** The elements of s that satisfy p, in order. */
  function Filter<T>(s: seq<T>, p: T -> bool): (r: seq<T>)
    ensures |r| <= |s|
    ensures forall i | 0 <= i < |r| :: p(r[i]) && r[i] in s
    decreases |s|
  {
    if |s| == 0 then []
    else Filter(s[..|s| - 1], p) + (if p(s[|s| - 1]) then [s[|s| - 1]] else [])
  }

  /** A filter keeps everything exactly when every element passes; otherwise it
      is strictly shorter. */
  lemma {:induction false} FilterKeepsAll<T>(s: seq<T>, p: T -> bool)
    ensures (forall i | 0 <= i < |s| :: p(s[i])) ==> Filter(s, p) == s
    ensures !(forall i | 0 <= i < |s| :: p(s[i])) ==> |Filter(s, p)| < |s|
    decreases |s|
  {
    if |s| > 0 {
      var init := s[..|s| - 1];
      FilterKeepsAll(init, p);
      if forall i | 0 <= i < |s| :: p(s[i]) {
        assert forall i | 0 <= i < |init| :: p(init[i]);
        assert init + [s[|s| - 1]] == s;
      } else if p(s[|s| - 1]) {
        assert !(forall i | 0 <= i < |init| :: p(init[i]));
      }
    }
  }

  /** Every element of s that passes p is kept. */
  lemma {:induction false} FilterComplete<T>(s: seq<T>, p: T -> bool, x: T)
    requires x in s && p(x)
    ensures x in Filter(s, p)
    decreases |s|
  {
    if s[|s| - 1] != x {
      assert x in s[..|s| - 1];
      FilterComplete(s[..|s| - 1], p, x);
    }
  }

  predicate Increasing(s: seq<nat>) {
    forall i, j | 0 <= i < j < |s| :: s[i] < s[j]
  }

  /** Filtering keeps the order: a filtered increasing sequence is increasing. */
  lemma {:induction false} FilterIncreasing(s: seq<nat>, p: nat -> bool)
    requires Increasing(s)
    ensures Increasing(Filter(s, p))
    decreases |s|
  {
    if |s| > 0 {
      var init := s[..|s| - 1];
      FilterIncreasing(init, p);
      var r := Filter(init, p);
      forall i | 0 <= i < |r| ensures r[i] < s[|s| - 1] {
        var k :| 0 <= k < |init| && init[k] == r[i];
      }
    }
  }

  /** A filter that nothing passes is empty. */
  lemma {:induction false} FilterNone<T>(s: seq<T>, p: T -> bool)
    requires forall i | 0 <= i < |s| :: !p(s[i])
    ensures Filter(s, p) == []
    decreases |s|
  {
    if |s| > 0 {
      FilterNone(s[..|s| - 1], p);
    }
  }

  /** Filtering a longer sequence extends the filter of its prefix by the new
      element exactly when that element passes. */
  lemma FilterSnoc<T>(s: seq<T>, x: T, p: T -> bool)
    ensures Filter(s + [x], p) == Filter(s, p) + (if p(x) then [x] else [])
  {
    assert (s + [x])[..|s|] == s;
  }

  lemma {:induction false} CountOnesIndicator(n: nat, s: set<nat>)
    ensures CountOnes(Indicator(n, s)) == |set i | i in s && i < n|
  {
    if n > 0 {
      var v := Indicator(n, s);
      assert v[..n - 1] == Indicator(n - 1, s);
      CountOnesIndicator(n - 1, s);
      var below := set i | i in s && i < n - 1;
      var upto := set i | i in s && i < n;
      if n - 1 in s {
        assert upto == below + {n - 1};
      } else {
        assert upto == below;
      }
    } else {
      assert (set i | i in s && i < n) == {};
    }
  }

  /** An indicator of indices below `n` has exactly `|s|` ones. */
  lemma IndicatorWeight(n: nat, s: set<nat>)
    requires forall i | i in s :: i < n
    ensures CountOnes(Indicator(n, s)) == |s|
  {
    CountOnesIndicator(n, s);
    assert (set i | i in s && i < n) == s;
  }

  lemma {:induction false} DistinctElems(s: seq<nat>)
    requires Distinct(s)
    ensures |Elems(s)| == |s|
  {
    if |s| > 0 {
      var init := s[..|s| - 1];
      DistinctElems(init);
      assert Elems(s) == Elems(init) + {s[|s| - 1]};
      assert s[|s| - 1] !in Elems(init);
    } else {
      assert Elems(s) == {};
    }
  }

  lemma {:induction false} ElemsBound(s: seq<nat>)
    ensures |Elems(s)| <= |s|
  {
    if |s| > 0 {
      var init := s[..|s| - 1];
      ElemsBound(init);
      assert Elems(s) == Elems(init) + {s[|s| - 1]};
    } else {
      assert Elems(s) == {};
    }
  }

  /** Setting the bits of two disjoint index sets is XOR-ing their indicators. */
  lemma IndicatorDisjointUnion(n: nat, a: set<nat>, b: set<nat>)
    requires a !! b
    ensures Indicator(n, a + b) == Xor(Indicator(n, a), Indicator(n, b))
  {
  }

  /** A 0/1 vector without ones is the zero vector. */
  lemma {:induction false} NoOnesIsZero(v: seq<Byte>)
    requires IsBinary(v) && CountOnes(v) == 0
    ensures v == Zeros(|v|)
  {
    if |v| > 0 {
      NoOnesIsZero(v[..|v| - 1]);
      assert v == v[..|v| - 1] + [v[|v| - 1]];
    }
  }

  function Sum(s: seq<nat>): nat {
    if |s| == 0 then 0 else s[0] + Sum(s[1..])
  }

  lemma XorInvolution(c: seq<Byte>, e: seq<Byte>)
    requires |c| == |e|
    ensures Xor(Xor(c, e), e) == c
  {
  }

  lemma SubsetSize(a: set<nat>, b: set<nat>)
    requires a <= b
    ensures |a| <= |b|
  {
    assert |b| == |a| + |b - a| by {
      assert b == a + (b - a);
    }
  }

  /** Pigeonhole: hi − lo distinct values in lo .. hi − 1 include every value
      of that range. */
  lemma CoversRange(values: seq<nat>, lo: nat, hi: nat, y: nat)
    requires lo <= y < hi && |values| == hi - lo && Distinct(values)
    requires forall i | 0 <= i < |values| :: lo <= values[i] < hi
    ensures y in values
  {
    if y !in values {
      var all := Range(lo, hi);
      DistinctElems(values);
      DistinctElems(all);
      forall v | v in Elems(values) ensures v in Elems(all) - {y} {
        assert all[v - lo] == v;
      }
      assert all[y - lo] == y;
      SubsetSize(Elems(values), Elems(all) - {y});
      assert false;
    }
  }
}
