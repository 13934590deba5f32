/** The GF(2) vector kernel the decoders share: syndromes as XOR-folds of
    `row & e`, partial syndromes as XORs of chosen columns, error vectors set
    from a shuffled index list, and k-subsets in `itertools::combinations`
    order. `Gf2.Xor` is `apply_errors` and `Gf2.CountOnes` is `calculate_weight`. */
module Syndrome {
  import opened Gf2

  // ---------------------------------------------------------------------------
  // calculate_syndrome (the XOR-fold version)
  // ---------------------------------------------------------------------------

  /** `row.iter().zip(e).map(|(r, x)| r & x).fold(0, |acc, x| acc ^ x)` over
      the first n pairs. */
  function DotFold(row: seq<Byte>, e: seq<Byte>, n: nat): Byte
    requires n <= |row| && n <= |e|
  {
    if n == 0 then 0 else DotFold(row, e, n - 1) ^ (row[n - 1] & e[n - 1])
  }

  /** The fold over the whole zip: it stops at the shorter of the two. */
  function Dot(row: seq<Byte>, e: seq<Byte>): Byte {
    DotFold(row, e, Min(|row|, |e|))
  }

  /** `calculate_syndrome(e, h)`: one fold per row of `h`. */
  function CalculateSyndrome(e: seq<Byte>, h: Matrix): (s: seq<Byte>)
    requires h.Valid()
    ensures |s| == h.rows
  {
    seq(h.rows, i requires 0 <= i < h.rows => Dot(h.at[i], e))
  }

  lemma {:induction false} DotFoldLinear(row: seq<Byte>, a: seq<Byte>, b: seq<Byte>, n: nat)
    requires n <= |row| && n <= |a| == |b|
    ensures DotFold(row, Xor(a, b), n) == DotFold(row, a, n) ^ DotFold(row, b, n)
  {
    if n > 0 {
      DotFoldLinear(row, a, b, n - 1);
      DistributeAnd(row[n - 1], a[n - 1], b[n - 1]);
    }
  }

  lemma DistributeAnd(r: Byte, x: Byte, y: Byte)
    ensures r & (x ^ y) == (r & x) ^ (r & y)
  {
  }

  /** The syndrome is linear: the syndrome of a sum is the sum of the syndromes.
      This is what lets the meet-in-the-middle searches combine two halves. */
  lemma SyndromeLinear(h: Matrix, a: seq<Byte>, b: seq<Byte>)
    requires h.Valid() && |a| == |b|
    ensures CalculateSyndrome(Xor(a, b), h) == Xor(CalculateSyndrome(a, h), CalculateSyndrome(b, h))
  {
    forall i | 0 <= i < h.rows
      ensures Dot(h.at[i], Xor(a, b)) == Dot(h.at[i], a) ^ Dot(h.at[i], b)
    {
      DotFoldLinear(h.at[i], a, b, Min(|h.at[i]|, |a|));
    }
  }

  lemma {:induction false} DotFoldZero(row: seq<Byte>, e: seq<Byte>, n: nat)
    requires n <= |row| && n <= |e| && IsZero(e)
    ensures DotFold(row, e, n) == 0
  {
    if n > 0 {
      DotFoldZero(row, e, n - 1);
      assert e[n - 1] == 0;
    }
  }

  /** The zero vector has the zero syndrome. */
  lemma SyndromeOfZero(h: Matrix, n: nat)
    requires h.Valid()
    ensures CalculateSyndrome(Zeros(n), h) == Zeros(h.rows)
  {
    forall i | 0 <= i < h.rows
      ensures Dot(h.at[i], Zeros(n)) == 0
    {
      DotFoldZero(h.at[i], Zeros(n), Min(|h.at[i]|, n));
    }
  }

  /** Against a single 1 at position c, the fold picks out bit 0 of `row[c]`. */
  lemma {:induction false} DotFoldUnit(row: seq<Byte>, len: nat, c: nat, n: nat)
    requires n <= |row| && n <= len
    ensures DotFold(row, Indicator(len, {c}), n) == if c < n then row[c] & 1 else 0
  {
    if n > 0 {
      DotFoldUnit(row, len, c, n - 1);
      if n - 1 == c {
        assert DotFold(row, Indicator(len, {c}), n) == 0 ^ (row[c] & 1);
      } else {
        assert Indicator(len, {c})[n - 1] == 0;
      }
    }
  }

  // ---------------------------------------------------------------------------
  // calculate_syndrome of src/utils.rs and validate_syndrome: `h.dot(e)`
  // ---------------------------------------------------------------------------

  /** `h.row(i).dot(e)` over `u8`: products and sums wrap modulo 256 and nothing
      is reduced modulo 2. */
  function RawDot(row: seq<Byte>, e: seq<Byte>, n: nat): Byte
    requires n <= |row| && n <= |e|
  {
    if n == 0 then 0 else RawDot(row, e, n - 1) + row[n - 1] * e[n - 1]
  }

  /** `calculate_syndrome` of src/utils.rs: asserts that the widths agree and
      returns `(h · v) mod 2`. */
  function SyndromeMod2(v: seq<Byte>, h: Matrix): (s: seq<Byte>)
    requires h.Valid() && h.cols == |v|
    ensures |s| == h.rows && IsBinary(s)
  {
    seq(h.rows, i requires 0 <= i < h.rows => RawDot(h.at[i], v, |v|) % 2)
  }

  lemma ParityStep(x: Byte, p: Byte)
    requires p <= 1
    ensures (x + p) % 2 == (x % 2) ^ p
  {
  }

  lemma BitProduct(r: Byte, e: Byte)
    requires r <= 1 && e <= 1
    ensures r * e == r & e && r & e <= 1
  {
  }

  lemma {:induction false} RawDotParity(row: seq<Byte>, e: seq<Byte>, n: nat)
    requires n <= |row| && n <= |e| && IsBinary(row) && IsBinary(e)
    ensures RawDot(row, e, n) % 2 == DotFold(row, e, n)
  {
    if n > 0 {
      RawDotParity(row, e, n - 1);
      BitProduct(row[n - 1], e[n - 1]);
      ParityStep(RawDot(row, e, n - 1), row[n - 1] * e[n - 1]);
    }
  }

  /** For 0/1 inputs the modulo-2 syndrome is the XOR-fold syndrome. */
  lemma SyndromeMod2Agrees(h: Matrix, v: seq<Byte>)
    requires h.Valid() && h.Binary() && h.cols == |v| && IsBinary(v)
    ensures SyndromeMod2(v, h) == CalculateSyndrome(v, h)
  {
    forall i | 0 <= i < h.rows
      ensures RawDot(h.at[i], v, |v|) % 2 == Dot(h.at[i], v)
    {
      assert IsBinary(h.at[i]);
      RawDotParity(h.at[i], v, |v|);
    }
  }

  /** One step of the modulo-2 fold: adding `r · (a ⊕ b)` to a sum whose parity
      is the XOR of two others' parities keeps that relation. */
  lemma ParityLinearStep(x: Byte, y: Byte, z: Byte, r: Byte, a: Byte, b: Byte)
    requires a <= 1 && b <= 1 && x % 2 == (y % 2) ^ (z % 2)
    ensures (x + r * (a ^ b)) % 2 == ((y + r * a) % 2) ^ ((z + r * b) % 2)
  {
  }

  lemma {:induction false} RawDotLinear(row: seq<Byte>, a: seq<Byte>, b: seq<Byte>, n: nat)
    requires n <= |row| && n <= |a| == |b| && IsBinary(a) && IsBinary(b)
    ensures RawDot(row, Xor(a, b), n) % 2 == (RawDot(row, a, n) % 2) ^ (RawDot(row, b, n) % 2)
  {
    if n > 0 {
      RawDotLinear(row, a, b, n - 1);
      ParityLinearStep(RawDot(row, Xor(a, b), n - 1), RawDot(row, a, n - 1), RawDot(row, b, n - 1),
                       row[n - 1], a[n - 1], b[n - 1]);
    }
  }

  /** The modulo-2 syndrome is linear on 0/1 vectors, whatever the entries of h. */
  lemma SyndromeMod2Linear(h: Matrix, a: seq<Byte>, b: seq<Byte>)
    requires h.Valid() && |a| == |b| == h.cols && IsBinary(a) && IsBinary(b)
    ensures SyndromeMod2(Xor(a, b), h) == Xor(SyndromeMod2(a, h), SyndromeMod2(b, h))
  {
    forall i | 0 <= i < h.rows
      ensures RawDot(h.at[i], Xor(a, b), |a|) % 2 == (RawDot(h.at[i], a, |a|) % 2) ^ (RawDot(h.at[i], b, |b|) % 2)
    {
      RawDotLinear(h.at[i], a, b, |a|);
    }
  }

  lemma {:induction false} RawDotZero(row: seq<Byte>, e: seq<Byte>, n: nat)
    requires n <= |row| && n <= |e| && IsZero(e)
    ensures RawDot(row, e, n) == 0
  {
    if n > 0 {
      RawDotZero(row, e, n - 1);
    }
  }

  lemma SyndromeMod2OfZero(h: Matrix)
    requires h.Valid()
    ensures SyndromeMod2(Zeros(h.cols), h) == Zeros(h.rows)
  {
    forall i | 0 <= i < h.rows
      ensures RawDot(h.at[i], Zeros(h.cols), h.cols) == 0
    {
      RawDotZero(h.at[i], Zeros(h.cols), h.cols);
    }
  }

  /** `validate_syndrome(e, s, h)`: the unreduced `h · e` against `s`, entry by
      entry over the shorter of the two. */
  predicate ValidateSyndrome(e: seq<Byte>, s: seq<Byte>, h: Matrix)
    requires h.Valid() && h.cols == |e|
  {
    forall i | 0 <= i < Min(h.rows, |s|) :: RawDot(h.at[i], e, |e|) == s[i]
  }

  /** Passing the check means agreeing with the syndrome wherever both exist. */
  lemma ValidateSyndromeSound(e: seq<Byte>, s: seq<Byte>, h: Matrix)
    requires h.Valid() && h.Binary() && h.cols == |e| && IsBinary(e) && IsBinary(s)
    requires ValidateSyndrome(e, s, h)
    ensures forall i | 0 <= i < Min(h.rows, |s|) :: CalculateSyndrome(e, h)[i] == s[i]
  {
    SyndromeMod2Agrees(h, e);
    forall i | 0 <= i < Min(h.rows, |s|)
      ensures CalculateSyndrome(e, h)[i] == s[i]
    {
      assert SyndromeMod2(e, h)[i] == RawDot(h.at[i], e, |e|) % 2;
    }
  }

  /** The check is not complete: a row that meets two errors sums to 2, which
      is 0 modulo 2, yet does not equal a syndrome entry of 0. */
  lemma ValidateSyndromeUnreduced()
    ensures Matrix(1, 2, [[1, 1]]).Valid()
    ensures CalculateSyndrome([1, 1], Matrix(1, 2, [[1, 1]])) == [0]
    ensures !ValidateSyndrome([1, 1], [0], Matrix(1, 2, [[1, 1]]))
  {
    var h := Matrix(1, 2, [[1, 1]]);
    assert DotFold([1, 1], [1, 1], 1) == 1;
    assert Dot([1, 1], [1, 1]) == DotFold([1, 1], [1, 1], 2) == 0;
    assert CalculateSyndrome([1, 1], h) == [Dot([1, 1], [1, 1])];
    assert RawDot([1, 1], [1, 1], 1) == 1;
    assert RawDot([1, 1], [1, 1], 2) == 2;
    assert h.at[0] == [1, 1] && Min(h.rows, |[0 as Byte]|) == 1;
    assert RawDot(h.at[0], [1, 1], 2) != [0 as Byte][0];
  }

  // ---------------------------------------------------------------------------
  // calculate_weight
  // ---------------------------------------------------------------------------

  /** `calculate_weight`: the positions holding exactly 1. */
  lemma {:induction false} CountOnesPositions(v: seq<Byte>)
    ensures CountOnes(v) == |set i | 0 <= i < |v| && v[i] == 1|
  {
    if |v| > 0 {
      var init := v[..|v| - 1];
      CountOnesPositions(init);
      var before := set i | 0 <= i < |init| && init[i] == 1;
      var after := set i | 0 <= i < |v| && v[i] == 1;
      if v[|v| - 1] == 1 {
        assert after == before + {|v| - 1};
      } else {
        assert after == before;
      }
    }
  }

  // ---------------------------------------------------------------------------
  // Error vectors: `v[i] = 1` for every chosen index
  // ---------------------------------------------------------------------------

  /** `let mut v = vec![0; n]; for &i in idx { v[i] = 1; }`. */
  method MarkPositions(n: nat, idx: seq<nat>) returns (v: seq<Byte>)
    requires AllBelow(idx, n)
    ensures v == Indicator(n, Elems(idx))
  {
    v := Zeros(n);
    for t := 0 to |idx|
      invariant v == Indicator(n, Elems(idx[..t]))
    {
      assert Elems(idx[..t + 1]) == Elems(idx[..t]) + {idx[t]};
      v := v[idx[t] := 1];
    }
    assert idx[..|idx|] == idx;
  }

  /** `v[pos] = 1` for every `pos` in `idx`, on a copy of `v`: the second and
      later index lists written into an error buffer. */
  method SetOnes(v: seq<Byte>, idx: seq<nat>) returns (r: seq<Byte>)
    requires AllBelow(idx, |v|)
    ensures |r| == |v| && forall i | 0 <= i < |v| :: r[i] == if i in idx then 1 else v[i]
  {
    r := v;
    for k := 0 to |idx|
      invariant |r| == |v| && forall i | 0 <= i < |v| :: r[i] == if i in idx[..k] then 1 else v[i]
    {
      assert forall i :: i in idx[..k + 1] <==> i in idx[..k] || i == idx[k];
      r := r[idx[k] := 1];
    }
    assert idx[..|idx|] == idx;
  }

  /** Distinct chosen indices give exactly that many ones. */
  lemma MarkedWeight(n: nat, idx: seq<nat>)
    requires AllBelow(idx, n) && Distinct(idx)
    ensures CountOnes(Indicator(n, Elems(idx))) == |idx|
  {
    DistinctElems(idx);
    IndicatorWeight(n, Elems(idx));
  }

  /** `generate_random_error_vector(n, weight)` with the shuffle passed in as the
      permutation `perm` of `0..n`: asserts `weight <= n` and sets the first
      `weight` shuffled positions, giving a 0/1 vector with exactly `weight` ones. */
  method GenerateRandomErrorVector(n: nat, weight: nat, perm: seq<nat>) returns (e: seq<Byte>)
    requires weight <= n && IsPermutation(perm, n)
    ensures e == Indicator(n, Elems(perm[..weight]))
    ensures |e| == n && IsBinary(e) && CountOnes(e) == weight
  {
    e := MarkPositions(n, perm[..weight]);
    MarkedWeight(n, perm[..weight]);
  }

  // ---------------------------------------------------------------------------
  // calculate_partial_syndrome
  // ---------------------------------------------------------------------------

  /** Every index is below `cols`, for the first n indices. */
  predicate IndicesBelow(idx: seq<nat>, n: nat, cols: nat)
    requires n <= |idx|
  {
    forall t | 0 <= t < n :: idx[t] < cols
  }

  /** `h[[j, idx[t]]]` XOR-ed over the first n indices. */
  function ColumnXor(h: Matrix, idx: seq<nat>, j: nat, n: nat): Byte
    requires h.Valid() && n <= |idx| && (n > 0 ==> j < h.rows && IndicesBelow(idx, n, h.cols))
  {
    if n == 0 then 0 else ColumnXor(h, idx, j, n - 1) ^ h.at[j][idx[n - 1]]
  }

  /** What `calculate_partial_syndrome` needs not to panic: rows `0..r` exist
      and the indices are columns, whenever it touches `h` at all. */
  predicate PartialInRange(h: Matrix, idx: seq<nat>, r: nat) {
    (|idx| > 0 ==> r <= h.rows) && (r > 0 ==> AllBelow(idx, h.cols))
  }

  /** The XOR of columns `idx` of `h`, over rows `0..r`. */
  function PartialSyndrome(h: Matrix, idx: seq<nat>, r: nat): (s: seq<Byte>)
    requires h.Valid() && PartialInRange(h, idx, r)
    ensures |s| == r
  {
    seq(r, j requires 0 <= j < r => ColumnXor(h, idx, j, |idx|))
  }

  method CalculatePartialSyndrome(h: Matrix, indices: seq<nat>, r: nat) returns (syndrome: seq<Byte>)
    requires h.Valid() && PartialInRange(h, indices, r)
    ensures syndrome == PartialSyndrome(h, indices, r)
  {
    syndrome := Zeros(r);
    for t := 0 to |indices|
      invariant |syndrome| == r
      invariant forall j | 0 <= j < r :: syndrome[j] == ColumnXor(h, indices, j, t)
    {
      var idx := indices[t];
      for j := 0 to r
        invariant |syndrome| == r
        invariant forall j' | 0 <= j' < r :: syndrome[j'] == if j' < j then ColumnXor(h, indices, j', t + 1) else ColumnXor(h, indices, j', t)
      {
        syndrome := syndrome[j := syndrome[j] ^ h.at[j][idx]];
      }
    }
  }

  lemma {:induction false} ColumnXorPrefix(h: Matrix, a: seq<nat>, b: seq<nat>, j: nat, n: nat)
    requires h.Valid() && n <= |a| && j < h.rows && IndicesBelow(a, n, h.cols)
    ensures ColumnXor(h, a + b, j, n) == ColumnXor(h, a, j, n)
  {
    if n > 0 {
      ColumnXorPrefix(h, a, b, j, n - 1);
    }
  }

  lemma {:induction false} ColumnXorConcat(h: Matrix, a: seq<nat>, b: seq<nat>, j: nat, n: nat)
    requires h.Valid() && n <= |b| && j < h.rows && AllBelow(a, h.cols) && AllBelow(b, h.cols)
    ensures ColumnXor(h, a + b, j, |a| + n) == ColumnXor(h, a, j, |a|) ^ ColumnXor(h, b, j, n)
  {
    if n > 0 {
      ColumnXorConcat(h, a, b, j, n - 1);
      assert (a + b)[|a| + n - 1] == b[n - 1];
    } else {
      ColumnXorPrefix(h, a, b, j, |a|);
    }
  }

  /** Concatenating index lists adds their partial syndromes. */
  lemma PartialSyndromeConcat(h: Matrix, a: seq<nat>, b: seq<nat>, r: nat)
    requires h.Valid() && r <= h.rows && AllBelow(a, h.cols) && AllBelow(b, h.cols)
    ensures PartialSyndrome(h, a + b, r) == Xor(PartialSyndrome(h, a, r), PartialSyndrome(h, b, r))
  {
    forall j | 0 <= j < r
      ensures ColumnXor(h, a + b, j, |a + b|) == ColumnXor(h, a, j, |a|) ^ ColumnXor(h, b, j, |b|)
    {
      ColumnXorConcat(h, a, b, j, |b|);
    }
  }

  /** A column chosen twice cancels. */
  lemma PartialSyndromeRepeat(h: Matrix, idx: seq<nat>, c: nat, r: nat)
    requires h.Valid() && r <= h.rows && AllBelow(idx, h.cols) && c < h.cols
    ensures PartialSyndrome(h, idx + [c, c], r) == PartialSyndrome(h, idx, r)
  {
    PartialSyndromeConcat(h, idx, [c, c], r);
    forall j | 0 <= j < r
      ensures ColumnXor(h, [c, c], j, 2) == 0
    {
      assert ColumnXor(h, [c, c], j, 1) == h.at[j][c];
    }
  }

  /** For distinct column indices of a 0/1 matrix, the partial syndrome over all
      rows is the syndrome of the indicator vector of those columns. */
  lemma {:induction false} PartialSyndromeIsSyndrome(h: Matrix, idx: seq<nat>)
    requires h.Valid() && h.Binary() && AllBelow(idx, h.cols) && Distinct(idx)
    ensures PartialSyndrome(h, idx, h.rows) == CalculateSyndrome(Indicator(h.cols, Elems(idx)), h)
    decreases |idx|
  {
    if |idx| == 0 {
      assert Elems(idx) == {};
      assert Indicator(h.cols, {}) == Zeros(h.cols);
      SyndromeOfZero(h, h.cols);
    } else {
      var init := idx[..|idx| - 1];
      var c := idx[|idx| - 1];
      assert idx == init + [c];
      PartialSyndromeIsSyndrome(h, init);
      PartialSyndromeConcat(h, init, [c], h.rows);
      assert Elems(idx) == Elems(init) + {c};
      assert c !in Elems(init);
      IndicatorDisjointUnion(h.cols, Elems(init), {c});
      SyndromeLinear(h, Indicator(h.cols, Elems(init)), Indicator(h.cols, {c}));
      forall j | 0 <= j < h.rows
        ensures ColumnXor(h, [c], j, 1) == Dot(h.at[j], Indicator(h.cols, {c}))
      {
        DotFoldUnit(h.at[j], h.cols, c, h.cols);
        assert h.at[j][c] <= 1;
      }
    }
  }

  // ---------------------------------------------------------------------------
  // generate_subsets: itertools combinations
  // ---------------------------------------------------------------------------

  /** `[x] + c` for every c. */
  function PrependAll(x: nat, cs: seq<seq<nat>>): (r: seq<seq<nat>>)
    ensures |r| == |cs|
  {
    seq(|cs|, i requires 0 <= i < |cs| => [x] + cs[i])
  }

  /** `indices.iter().cloned().combinations(k)`, in the order it yields them:
      those that take the first index, then those that skip it. */
  function Combinations(s: seq<nat>, k: nat): seq<seq<nat>>
    decreases |s|
  {
    if k == 0 then [[]]
    else if |s| == 0 then []
    else PrependAll(s[0], Combinations(s[1..], k - 1)) + Combinations(s[1..], k)
  }

  /** `c` lists some of the entries of `s`, in their order in `s`. */
  predicate IsSubseq(c: seq<nat>, s: seq<nat>)
    decreases |s|
  {
    if |c| == 0 then true
    else if |s| == 0 then false
    else (c[0] == s[0] && IsSubseq(c[1..], s[1..])) || IsSubseq(c, s[1..])
  }

  function Binomial(n: nat, k: nat): nat {
    if k == 0 then 1 else if n == 0 then 0 else Binomial(n - 1, k - 1) + Binomial(n - 1, k)
  }

  /** There are C(len, k) of them. */
  lemma {:induction false} CombinationsCount(s: seq<nat>, k: nat)
    ensures |Combinations(s, k)| == Binomial(|s|, k)
    decreases |s|
  {
    if k > 0 && |s| > 0 {
      CombinationsCount(s[1..], k - 1);
      CombinationsCount(s[1..], k);
    }
  }

  lemma {:induction false} BinomialAbove(n: nat, k: nat)
    requires k > n
    ensures Binomial(n, k) == 0
  {
    if n > 0 {
      BinomialAbove(n - 1, k - 1);
      BinomialAbove(n - 1, k);
    }
  }

  /** None when k exceeds the length; one empty subset when k is 0. */
  lemma CombinationsEdges(s: seq<nat>, k: nat)
    ensures k > |s| ==> Combinations(s, k) == []
    ensures Combinations(s, 0) == [[]]
  {
    if k > |s| {
      CombinationsCount(s, k);
      BinomialAbove(|s|, k);
    }
  }

  /** Every subset yielded has k entries and is a subsequence of the input. */
  lemma {:induction false} CombinationsSound(s: seq<nat>, k: nat)
    ensures forall c | c in Combinations(s, k) :: |c| == k && IsSubseq(c, s)
    decreases |s|
  {
    if k > 0 && |s| > 0 {
      CombinationsSound(s[1..], k - 1);
      CombinationsSound(s[1..], k);
      forall c | c in Combinations(s, k)
        ensures |c| == k && IsSubseq(c, s)
      {
        var with := PrependAll(s[0], Combinations(s[1..], k - 1));
        if c in with {
          var i :| 0 <= i < |with| && with[i] == c;
          var d := Combinations(s[1..], k - 1)[i];
          assert c == [s[0]] + d && c[1..] == d;
        } else {
          assert c in Combinations(s[1..], k);
        }
      }
    }
  }

  /** Every subsequence of length k is yielded. */
  lemma {:induction false} CombinationsComplete(s: seq<nat>, c: seq<nat>)
    requires IsSubseq(c, s)
    ensures c in Combinations(s, |c|)
    decreases |s|
  {
    if |c| > 0 {
      var rest := Combinations(s[1..], |c|);
      if c[0] == s[0] && IsSubseq(c[1..], s[1..]) {
        CombinationsComplete(s[1..], c[1..]);
        var cs := Combinations(s[1..], |c| - 1);
        var i :| 0 <= i < |cs| && cs[i] == c[1..];
        assert PrependAll(s[0], cs)[i] == c;
      } else {
        CombinationsComplete(s[1..], c);
        assert c in rest;
      }
    }
  }

  /** A subsequence keeps only entries of the input, and stays distinct. */
  lemma {:induction false} SubseqElems(c: seq<nat>, s: seq<nat>)
    requires IsSubseq(c, s)
    ensures forall x | x in c :: x in s
    ensures Distinct(s) ==> Distinct(c)
    decreases |s|
  {
    if |c| > 0 {
      if c[0] == s[0] && IsSubseq(c[1..], s[1..]) {
        SubseqElems(c[1..], s[1..]);
        assert c == [c[0]] + c[1..];
        if Distinct(s) {
          assert Distinct(s[1..]);
          assert s[0] !in s[1..];
          assert Distinct(c) by {
            forall i, j | 0 <= i < j < |c|
              ensures c[i] != c[j]
            {
              if i == 0 {
                assert c[j] in c[1..];
              } else {
                assert c[1..][i - 1] != c[1..][j - 1];
              }
            }
          }
        }
      } else {
        SubseqElems(c, s[1..]);
        if Distinct(s) {
          assert Distinct(s[1..]);
        }
      }
    }
  }

  /** A yielded subset has k entries, all taken from s, and no repeats when s
      has none. */
  lemma CombinationFrom(s: seq<nat>, k: nat, c: seq<nat>)
    requires c in Combinations(s, k)
    ensures |c| == k && forall i | 0 <= i < |c| :: c[i] in s
    ensures Distinct(s) ==> Distinct(c)
  {
    CombinationsSound(s, k);
    SubseqElems(c, s);
    forall i | 0 <= i < |c| ensures c[i] in s {
      assert c[i] in c;
    }
  }

  /** A subset of `0..n` yielded by the combinations has k distinct indices below n. */
  lemma CombinationOfRange(n: nat, k: nat, c: seq<nat>)
    requires c in Combinations(Range(0, n), k)
    ensures |c| == k && AllBelow(c, n) && Distinct(c)
  {
    CombinationsSound(Range(0, n), k);
    SubseqElems(c, Range(0, n));
    forall i | 0 <= i < |c| ensures c[i] < n {
      assert c[i] in c;
    }
  }
}
