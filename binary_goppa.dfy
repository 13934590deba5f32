/** The self-contained constructors of src/codes.rs: a "Goppa" code over GF(2)
    built from `modular_inverse(L_j, 2)` and a generator formed by
    concatenation. Its random and Hamming constructors are the same code as in
    src/code_generator.rs and are modelled once, in module Codes. */
module BinaryGoppa {
  import opened Gf2
  import opened Codes
  import opened Syndrome

  // ---------------------------------------------------------------------------
  // modular_inverse: the extended Euclidean loop on u8
  // ---------------------------------------------------------------------------

  /** `b % a` for a ≠ 0, which is below a. */
  function Rem(b: Byte, a: Byte): (r: Byte)
    requires a != 0
    ensures r < a
  {
    assert b % a <= a - 1;
    b % a
  }

  /** The loop state (a, b, u, v) run to `a == 0`; `q * u` wraps as `u8` does. */
  function InverseLoop(a: Byte, b: Byte, u: Byte, v: Byte): Byte
    decreases a
  {
    if a == 0 then v else InverseLoop(Rem(b, a), a, v ^ ((b / a) * u), u)
  }

  /** `modular_inverse(x, mod_poly)`. Termination: `b % a < a` whenever a ≠ 0. */
  method ModularInverse(x: Byte, modPoly: Byte) returns (r: Byte)
    ensures r == InverseLoop(x, modPoly, 1, 0)
    ensures x == 0 ==> r == 0
  {
    var a, b, u, v := x, modPoly, 1, 0;
    while a != 0
      invariant InverseLoop(a, b, u, v) == InverseLoop(x, modPoly, 1, 0)
      decreases a
    {
      var next, nextU := Rem(b, a), v ^ ((b / a) * u);
      assert InverseLoop(a, b, u, v) == InverseLoop(next, a, nextU, u);
      a, b, u, v := next, a, nextU, u;
    }
    r := v;
  }

  /** Modulo 2 the loop yields x mod 2, except for x = 2, where it yields 1
      although 2 ≡ 0 has no inverse. */
  lemma InverseModTwo(x: Byte)
    ensures InverseLoop(x, 2, 1, 0) == if x == 2 then 1 else x % 2
  {
    if x == 1 {
      assert InverseLoop(1, 2, 1, 0) == InverseLoop(0, 1, 2, 1);
    } else if x == 2 {
      assert InverseLoop(2, 2, 1, 0) == InverseLoop(0, 2, 1, 1);
    } else if x >= 3 {
      assert InverseLoop(x, 2, 1, 0) == InverseLoop(2, x, 0, 1);
      assert InverseLoop(2, x, 0, 1) == InverseLoop(x % 2, 2, 1, 0);
      if x % 2 == 1 {
        assert InverseLoop(1, 2, 1, 0) == InverseLoop(0, 1, 2, 1);
      }
    }
  }

  // ---------------------------------------------------------------------------
  // generate_goppa_code_matrix
  // ---------------------------------------------------------------------------

  /** Entry (i, j): `(goppa_poly[i] * modular_inverse(L[j], 2)) % 2` for the
      columns the support reaches; the rest stay at zero. */
  function CodeEntry(g: seq<Byte>, support: seq<Byte>, i: nat, j: nat): Byte
    requires i < |g|
  {
    if j < |support| then (g[i] * InverseLoop(support[j], 2, 1, 0)) % 2 else 0
  }

  /** The t × n matrix the nested loops fill. */
  function CodeMatrix(n: nat, t: nat, g: seq<Byte>, support: seq<Byte>): (h: Matrix)
    requires t <= |g|
    ensures h.Valid() && h.rows == t && h.cols == n
    ensures forall i, j | 0 <= i < t && 0 <= j < n :: h.at[i][j] == CodeEntry(g, support, i, j)
  {
    Matrix(t, n, seq(t, i requires 0 <= i < t => seq(n, (j: nat) => CodeEntry(g, support, i, j))))
  }

  /** Every entry is a remainder modulo 2. */
  lemma CodeMatrixBinary(n: nat, t: nat, g: seq<Byte>, support: seq<Byte>)
    requires t <= |g|
    ensures CodeMatrix(n, t, g, support).Binary()
  {
  }

  /** For 0/1 coefficients, entry (i, j) is set exactly when g_i = 1 and L_j is
      odd or equal to 2. */
  lemma CodeEntryClosedForm(g: seq<Byte>, support: seq<Byte>, i: nat, j: nat)
    requires i < |g| && g[i] <= 1 && j < |support|
    ensures CodeEntry(g, support, i, j) == if g[i] == 1 && (support[j] % 2 == 1 || support[j] == 2) then 1 else 0
  {
    InverseModTwo(support[j]);
  }

  /** `generate_goppa_code_matrix(n, t, goppa_poly, support)`: `support[j]` goes
      to column j, so the support may not be longer than n. */
  method GenerateGoppaCodeMatrix(n: nat, t: nat, g: seq<Byte>, support: seq<Byte>) returns (h: Matrix)
    requires t <= |g| && |support| <= n
    ensures h == CodeMatrix(n, t, g, support)
  {
    h := ZeroMatrix(t, n);
    for j := 0 to |support|
      invariant h.Valid() && h.rows == t && h.cols == n
      invariant forall r, c | 0 <= r < t && 0 <= c < n ::
        h.at[r][c] == if c < j then CodeEntry(g, support, r, c) else 0
    {
      var inv := ModularInverse(support[j], 2);
      h := FillColumn(h, g, support, j, inv);
    }
    MatrixExt(h, CodeMatrix(n, t, g, support));
  }

  /** The inner `for i in 0..t` loop for column j. */
  method FillColumn(h0: Matrix, g: seq<Byte>, support: seq<Byte>, j: nat, inv: Byte) returns (h: Matrix)
    requires h0.Valid() && h0.rows <= |g| && j < |support| && j < h0.cols
    requires inv == InverseLoop(support[j], 2, 1, 0)
    ensures h.Valid() && h.rows == h0.rows && h.cols == h0.cols
    ensures forall r, c | 0 <= r < h.rows && 0 <= c < h.cols ::
      h.at[r][c] == if c == j then CodeEntry(g, support, r, c) else h0.at[r][c]
  {
    h := h0;
    for i := 0 to h0.rows
      invariant h.Valid() && h.rows == h0.rows && h.cols == h0.cols
      invariant forall r, c | 0 <= r < h.rows && 0 <= c < h.cols ::
        h.at[r][c] == if c == j && r < i then CodeEntry(g, support, r, c) else h0.at[r][c]
    {
      h := SetEntry(h, i, j, (g[i] * inv) % 2);
    }
  }

  // ---------------------------------------------------------------------------
  // generate_generator_matrix
  // ---------------------------------------------------------------------------

  /** `concatenate(Axis(1), [eye(k), h[..m, ..k]])` with k = n − m: the
      concatenation needs both blocks to have k rows, so the source's `unwrap`
      succeeds only when m = n − m. */
  function GeneratorFromParity(h: Matrix): (g: Matrix)
    requires h.Valid() && h.rows <= h.cols && h.cols - h.rows == h.rows
    ensures g.Valid() && g.rows == h.rows && g.cols == h.cols
    ensures forall i, c | 0 <= i < g.rows && 0 <= c < g.cols ::
      g.at[i][c] == if c < h.rows then (if c == i then 1 else 0) else h.at[i][c - h.rows]
  {
    Generator(Matrix(h.rows, h.rows, seq(h.rows, i requires 0 <= i < h.rows => h.at[i][..h.rows])))
  }

  /** The block taken is h's left half, not its transpose: the generator need
      not be orthogonal to h. With h = [1 0] the result is [1 1], whose
      syndrome under h is 1. */
  lemma GeneratorNotOrthogonal()
    ensures var h := Matrix(1, 2, [[1, 0]]);
      h.Valid() && CalculateSyndrome(GeneratorFromParity(h).at[0], h) == [1]
  {
    var h := Matrix(1, 2, [[1, 0]]);
    var g := GeneratorFromParity(h);
    assert g.at[0][0] == 1 && g.at[0][1] == 1;
    assert g.at[0] == [1, 1];
    assert Dot(h.at[0], g.at[0]) == 1 by {
      assert DotFold(h.at[0], g.at[0], 2) == DotFold(h.at[0], g.at[0], 1) ^ (h.at[0][1] & g.at[0][1]);
      assert DotFold(h.at[0], g.at[0], 1) == DotFold(h.at[0], g.at[0], 0) ^ (h.at[0][0] & g.at[0][0]);
    }
  }

  // ---------------------------------------------------------------------------
  // generate_goppa_code
  // ---------------------------------------------------------------------------

  /** The support `(0..n as u8).collect()` after the shuffle: `n as u8` keeps
      n mod 256, so it holds the c = n mod 256 values 0 .. c − 1 in some order. */
  predicate IsSupportShuffle(support: seq<Byte>, c: nat) {
    |support| == c && Distinct(support) && forall i | 0 <= i < c :: support[i] as nat < c
  }

  /** The support has n elements exactly when n fits in a `u8`. */
  lemma SupportLength(n: nat, support: seq<Byte>)
    requires IsSupportShuffle(support, n % 256)
    ensures |support| == n <==> n <= 255
  {
  }

  /** For n = 256 the support is empty and the matrix is all zero. */
  lemma SupportWraps(support: seq<Byte>, g: seq<Byte>)
    requires IsSupportShuffle(support, 256 % 256) && |g| >= 128
    ensures support == []
    ensures forall i, j | 0 <= i < 128 && 0 <= j < 256 :: CodeMatrix(256, 128, g, support).at[i][j] == 0
  {
  }

  /** `generate_goppa_code(n, _k, w)` with t = w, the t + 1 coefficient draws
      from `gen_range(0..2)` and the shuffled support given; the generator's `unwrap`
      requires n = 2t. */
  method GenerateGoppaCode(n: nat, w: nat, coefficients: seq<Byte>, support: seq<Byte>) returns (g: Matrix, h: Matrix)
    requires |coefficients| == w + 1 && forall i | 0 <= i <= w :: coefficients[i] <= 1
    requires IsSupportShuffle(support, n % 256)
    requires n == 2 * w
    ensures h == CodeMatrix(n, w, coefficients, support) && h.Binary()
    ensures h.rows <= h.cols && h.cols - h.rows == h.rows && g == GeneratorFromParity(h)
  {
    h := GenerateGoppaCodeMatrix(n, w, coefficients, support);
    CodeMatrixBinary(n, w, coefficients, support);
    g := GeneratorFromParity(h);
  }
}
