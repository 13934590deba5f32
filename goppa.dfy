/** Goppa codes over the bit-level field: the parity-check construction of
    src/codes/goppa.rs, its retrying parameter search, and the Goppa constructor
    of src/code_generator.rs with its support-repair loop. */
module Goppa {
  import opened Gf2
  import opened FiniteField
  import opened Polynomials
  import opened Codes

  // ---------------------------------------------------------------------------
  // generate_goppa_parity_matrix
  // ---------------------------------------------------------------------------

  /** `(x >> b) & 1`, shifting one bit at a time (`x / 2` is `x >> 1` on a byte). */
  function Bit(x: Byte, b: nat): (r: Byte)
    ensures r <= 1
    decreases b
  {
    if b == 0 then x & 1 else Bit(x / 2, b - 1)
  }

  /** `evaluate_poly(g, x)` neither panics nor returns 0, so `inverse` accepts it. */
  predicate NonRoot(f: Field, g: Poly, x: Byte)
    requires f.Sized()
  {
    (x == 0 || |g| > 0) && Eval(f, g, x) != 0
  }

  /** The first n support entries exist and none is a root of g. */
  predicate RootFree(f: Field, g: Poly, support: seq<Byte>, n: nat)
    requires f.Sized()
  {
    n <= |support| && forall j | 0 <= j < n :: NonRoot(f, g, support[j])
  }

  /** The running `power` of a column: p_0 = 1, p_{i+1} = field_multiply(p_i, l). */
  function PowerOf(f: Field, l: Byte, i: nat): Byte
    requires f.Sized()
  {
    if i == 0 then 1 else Mul(f, PowerOf(f, l, i - 1), l)
  }

  /** The low m bits of x, least significant first. */
  function Bits(x: Byte, m: nat): (s: seq<Byte>)
    ensures |s| == m && forall b | 0 <= b < m :: s[b] == Bit(x, b)
  {
    seq(m, b requires 0 <= b < m => Bit(x, b))
  }

  /** The field values one column encodes: p_i · inv for i < t. */
  function ColumnValues(f: Field, l: Byte, inv: Byte, t: nat): (v: seq<Byte>)
    requires f.Sized()
    ensures |v| == t && forall i | 0 <= i < t :: v[i] == Mul(f, PowerOf(f, l, i), inv)
  {
    seq(t, i requires 0 <= i < t => Mul(f, PowerOf(f, l, i), inv))
  }

  /** k blocks of m rows: k·m, written as a sum so that lengths stay linear. */
  function Rows(k: nat, m: nat): nat {
    if k == 0 then 0 else Rows(k - 1, m) + m
  }

  lemma {:induction false} RowsProduct(k: nat, m: nat)
    ensures Rows(k, m) == k * m
  {
    if k > 0 {
      RowsProduct(k - 1, m);
    }
  }

  /** The low m bits of each value in turn, each least significant first. */
  function Spread(v: seq<Byte>, m: nat): (c: seq<Byte>)
    ensures |c| == Rows(|v|, m)
    decreases |v|
  {
    if |v| == 0 then [] else Spread(v[..|v| - 1], m) + Bits(v[|v| - 1], m)
  }

  /** g(L_j)⁻¹ for each of the first n support entries. */
  function ColumnInverses(f: Field, g: Poly, support: seq<Byte>, n: nat): (v: seq<Byte>)
    requires f.Sized() && RootFree(f, g, support, n)
    ensures |v| == n && forall j | 0 <= j < n :: v[j] == Inv(f, Eval(f, g, support[j]))
  {
    seq(n, j requires 0 <= j < n => Inv(f, Eval(f, g, support[j])))
  }

  /** The (t·m) × n matrix whose column j spreads the values p_i(L_j) · invs[j]
      over m rows each. */
  function ParityFrom(f: Field, support: seq<Byte>, invs: seq<Byte>, n: nat, t: nat): (h: Matrix)
    requires f.Sized() && n <= |support| && n <= |invs|
    ensures h.Valid() && h.rows == Rows(t, Degree(f)) && h.cols == n
    ensures forall r, j | 0 <= r < h.rows && 0 <= j < n ::
      h.at[r][j] == Spread(ColumnValues(f, support[j], invs[j], t), Degree(f))[r]
  {
    Matrix(Rows(t, Degree(f)), n,
      seq(Rows(t, Degree(f)), r requires 0 <= r < Rows(t, Degree(f)) =>
        seq(n, j requires 0 <= j < n => Spread(ColumnValues(f, support[j], invs[j], t), Degree(f))[r])))
  }

  /** The matrix `generate_goppa_parity_matrix` fills, with invs[j] = g(L_j)⁻¹. */
  function GoppaParity(f: Field, g: Poly, support: seq<Byte>, n: nat, t: nat): (h: Matrix)
    requires f.Sized() && RootFree(f, g, support, n)
    ensures h.Valid() && h.rows == Rows(t, Degree(f)) && h.cols == n
  {
    ParityFrom(f, support, ColumnInverses(f, g, support, n), n, t)
  }

  lemma {:induction false} RowsMonotone(i: nat, k: nat, m: nat)
    requires i <= k
    ensures Rows(i, m) <= Rows(k, m)
    decreases k
  {
    if i < k {
      RowsMonotone(i, k - 1, m);
    }
  }

  /** Entry Rows(i, m) + b of a spread is bit b of value i. */
  lemma {:induction false} SpreadLayout(v: seq<Byte>, m: nat, i: nat, b: nat)
    requires i < |v| && b < m
    ensures Rows(i, m) + b < Rows(|v|, m)
    ensures Spread(v, m)[Rows(i, m) + b] == Bit(v[i], b)
    decreases |v|
  {
    var init := v[..|v| - 1];
    var prefix := Spread(init, m);
    assert Spread(v, m) == prefix + Bits(v[|v| - 1], m);
    if i < |v| - 1 {
      SpreadLayout(init, m, i, b);
      RowsMonotone(i + 1, |v| - 1, m);
      assert init[i] == v[i];
    }
  }

  lemma {:induction false} SpreadBinary(v: seq<Byte>, m: nat)
    ensures IsBinary(Spread(v, m))
    decreases |v|
  {
    if |v| > 0 {
      SpreadBinary(v[..|v| - 1], m);
    }
  }

  /** The matrix has t·m rows and n columns, and every entry is 0 or 1. */
  lemma GoppaParityShape(f: Field, g: Poly, support: seq<Byte>, n: nat, t: nat)
    requires f.Sized() && RootFree(f, g, support, n)
    ensures GoppaParity(f, g, support, n, t).rows == t * Degree(f)
    ensures GoppaParity(f, g, support, n, t).cols == n
    ensures GoppaParity(f, g, support, n, t).Binary()
  {
    RowsProduct(t, Degree(f));
    var invs := ColumnInverses(f, g, support, n);
    var h := ParityFrom(f, support, invs, n, t);
    forall r, j | 0 <= r < h.rows && 0 <= j < h.cols ensures h.at[r][j] <= 1 {
      SpreadBinary(ColumnValues(f, support[j], invs[j], t), Degree(f));
    }
  }

  /** Rows i·m .. i·m + m − 1 of column j hold bits 0 .. m − 1, least significant
      first, of p_i · g(L_j)⁻¹, where p_i is the i-th running power of L_j. */
  lemma GoppaParityLayout(f: Field, g: Poly, support: seq<Byte>, n: nat, t: nat, i: nat, b: nat, j: nat)
    requires f.Sized() && RootFree(f, g, support, n)
    requires i < t && b < Degree(f) && j < n
    ensures i * Degree(f) + b < GoppaParity(f, g, support, n, t).rows
    ensures GoppaParity(f, g, support, n, t).at[i * Degree(f) + b][j]
         == Bit(Mul(f, PowerOf(f, support[j], i), Inv(f, Eval(f, g, support[j]))), b)
  {
    var m := Degree(f);
    var invs := ColumnInverses(f, g, support, n);
    var v := ColumnValues(f, support[j], invs[j], t);
    SpreadLayout(v, m, i, b);
    RowsProduct(i, m);
  }

  /** `generate_goppa_parity_matrix(n, t, g, support, field)`. The caller must
      supply at least n support entries, none a root of g: `support[j]` and
      `inverse` panic otherwise. */
  method GenerateGoppaParityMatrix(n: nat, t: nat, g: Poly, support: seq<Byte>, f: Field) returns (h: Matrix)
    requires f.Sized() && RootFree(f, g, support, n)
    ensures h == GoppaParity(f, g, support, n, t)
  {
    var m := Degree(f);
    ghost var invs := ColumnInverses(f, g, support, n);
    RowsProduct(t, m);
    h := ZeroMatrix(t * m, n);
    for j := 0 to n
      invariant h.Valid() && h.rows == Rows(t, m) && h.cols == n
      invariant forall r, c {:trigger h.at[r][c]} | 0 <= r < h.rows && 0 <= c < n ::
        h.at[r][c] == if c < j then Spread(ColumnValues(f, support[c], invs[c], t), m)[r] else 0
    {
      var lj := support[j];
      var glj := EvaluatePoly(g, lj, f);
      var inv := Inverse(f, glj);
      assert inv == invs[j];
      h := WriteColumn(h, f, lj, inv, t, j);
    }
    MatrixExt(h, ParityFrom(f, support, invs, n, t));
  }

  /** h agrees with h0 except that rows 0 .. k − 1 of column j hold col. */
  predicate ColumnPrefix(h: Matrix, h0: Matrix, j: nat, col: seq<Byte>, k: nat) {
    h.Valid() && h0.Valid() && h.rows == h0.rows && h.cols == h0.cols && j < h.cols
    && k <= h.rows && h.rows <= |col|
    && forall r, c {:trigger h.at[r][c]} | 0 <= r < h.rows && 0 <= c < h.cols ::
         h.at[r][c] == if c == j && r < k then col[r] else h0.at[r][c]
  }

  /** The two inner loops for one column: `power` runs through p_0 .. p_{t−1}
      and each `field_multiply(power, inv)` is spread over m rows. */
  method WriteColumn(h0: Matrix, f: Field, l: Byte, inv: Byte, t: nat, j: nat) returns (h: Matrix)
    requires f.Sized() && h0.Valid() && h0.rows == Rows(t, Degree(f)) && j < h0.cols
    ensures h.Valid() && h.rows == h0.rows && h.cols == h0.cols
    ensures forall r, c {:trigger h.at[r][c]} | 0 <= r < h.rows && 0 <= c < h.cols ::
      h.at[r][c] == if c == j then Spread(ColumnValues(f, l, inv, t), Degree(f))[r] else h0.at[r][c]
  {
    var m := Degree(f);
    ghost var v := ColumnValues(f, l, inv, t);
    ghost var col := Spread(v, m);
    h := h0;
    var power: Byte := 1;
    for i := 0 to t
      invariant power == PowerOf(f, l, i)
      invariant ColumnPrefix(h, h0, j, col, Rows(i, m))
    {
      h := WriteBlock(h0, h, f, l, inv, t, i, j, power, v);
      power := FieldMultiply(f, power, l);
    }
  }

  /** One pass of the middle loop: row block i of column j receives the bits of
      field_multiply(p_i, inv). */
  method WriteBlock(h0: Matrix, h1: Matrix, f: Field, l: Byte, inv: Byte, t: nat, i: nat, j: nat,
                    power: Byte, ghost v: seq<Byte>) returns (h: Matrix)
    requires f.Sized() && i < t && v == ColumnValues(f, l, inv, t) && power == PowerOf(f, l, i)
    requires h0.rows == Rows(t, Degree(f))
    requires ColumnPrefix(h1, h0, j, Spread(v, Degree(f)), Rows(i, Degree(f)))
    ensures ColumnPrefix(h, h0, j, Spread(v, Degree(f)), Rows(i + 1, Degree(f)))
  {
    var m := Degree(f);
    var colVal := FieldMultiply(f, power, inv);
    BlockBounds(i, t, m);
    var row0 := i * m;
    h := WriteBits(h1, row0, j, colVal, m);
    ColumnEntry(f, l, inv, t, i, power, colVal);
    ColumnStep(v, m, i, j, row0, colVal, h0, h1, h);
  }

  /** Block i of t blocks of m rows starts at row i·m and ends within the matrix. */
  lemma BlockBounds(i: nat, t: nat, m: nat)
    requires i < t
    ensures i * m == Rows(i, m) && i * m + m <= Rows(t, m)
  {
    RowsProduct(i, m);
    RowsMonotone(i + 1, t, m);
  }

  /** The value the middle loop writes in pass i is entry i of the column values. */
  lemma ColumnEntry(f: Field, l: Byte, inv: Byte, t: nat, i: nat, power: Byte, x: Byte)
    requires f.Sized() && i < t && power == PowerOf(f, l, i) && x == Mul(f, power, inv)
    ensures x == ColumnValues(f, l, inv, t)[i]
  {
  }

  /** Writing the bits of value i below rows 0 .. Rows(i, m) − 1 of the spread
      extends the spread prefix of column j to Rows(i + 1, m) rows. */
  lemma ColumnStep(v: seq<Byte>, m: nat, i: nat, j: nat, row0: nat, x: Byte, h0: Matrix, h1: Matrix, h: Matrix)
    requires i < |v| && row0 == Rows(i, m) && x == v[i]
    requires ColumnPrefix(h1, h0, j, Spread(v, m), row0) && h1.rows == Rows(|v|, m)
    requires h.Valid() && h.rows == h1.rows && h.cols == h1.cols
    requires forall r, c {:trigger h.at[r][c]} | 0 <= r < h.rows && 0 <= c < h.cols ::
      h.at[r][c] == if c == j && row0 <= r < row0 + m then Bit(x, r - row0) else h1.at[r][c]
    ensures ColumnPrefix(h, h0, j, Spread(v, m), Rows(i + 1, m))
  {
    RowsMonotone(i + 1, |v|, m);
    forall r, c | 0 <= r < h.rows && 0 <= c < h.cols && c == j && row0 <= r < row0 + m
      ensures h.at[r][c] == Spread(v, m)[r]
    {
      SpreadLayout(v, m, i, r - row0);
    }
  }

  /** The innermost loop: bits 0 .. m − 1 of x, least significant first, go to
      rows row0 .. row0 + m − 1 of column j. */
  method WriteBits(h0: Matrix, row0: nat, j: nat, x: Byte, m: nat) returns (h: Matrix)
    requires h0.Valid() && row0 + m <= h0.rows && j < h0.cols
    ensures h.Valid() && h.rows == h0.rows && h.cols == h0.cols
    ensures forall r, c {:trigger h.at[r][c]} | 0 <= r < h.rows && 0 <= c < h.cols ::
      h.at[r][c] == if c == j && row0 <= r < row0 + m then Bit(x, r - row0) else h0.at[r][c]
  {
    h := h0;
    for bit := 0 to m
      invariant h.Valid() && h.rows == h0.rows && h.cols == h0.cols
      invariant forall r, c {:trigger h.at[r][c]} | 0 <= r < h.rows && 0 <= c < h.cols ::
        h.at[r][c] == if c == j && row0 <= r < row0 + bit then Bit(x, r - row0) else h0.at[r][c]
    {
      h := SetEntry(h, row0 + bit, j, Bit(x, bit));
    }
  }

  // ---------------------------------------------------------------------------
  // generate_valid_goppa_params
  // ---------------------------------------------------------------------------

  /** `MAX_RETRIES`. */
  const MaxRetries: nat := 10

  /** The triple `(goppa_poly, support, field)`. */
  datatype GoppaParams = GoppaParams(poly: Poly, support: seq<Byte>, field: Field)

  /** The test the fallback loop applies to each support element. */
  function NonRootTest(f: Field, g: Poly): Byte -> bool {
    x => f.Sized() && NonRoot(f, g, x)
  }

  /** The elements of s that are not roots of g, in order. */
  function NonRoots(f: Field, g: Poly, s: seq<Byte>): (r: seq<Byte>)
    requires f.Sized()
    ensures |r| <= |s|
    ensures RootFree(f, g, r, |r|)
    ensures forall i | 0 <= i < |r| :: r[i] in s
  {
    Filter(s, NonRootTest(f, g))
  }

  /** Nothing is dropped from a list without roots, and something is dropped
      from a list with one. */
  lemma NonRootsKeepsAll(f: Field, g: Poly, s: seq<Byte>)
    requires f.Sized()
    ensures RootFree(f, g, s, |s|) ==> NonRoots(f, g, s) == s
    ensures !RootFree(f, g, s, |s|) ==> |NonRoots(f, g, s)| < |s|
  {
    FilterKeepsAll(s, NonRootTest(f, g));
  }

  /** `for &x in &support { if evaluate_poly(.., x, ..) == 0 { .. break; } }`:
      whether some element of the support is a root of g. */
  method HasRootIn(g: Poly, support: seq<Byte>, f: Field) returns (found: bool)
    requires f.Sized() && |g| > 0
    ensures found <==> !RootFree(f, g, support, |support|)
  {
    found := false;
    for i := 0 to |support|
      invariant RootFree(f, g, support, i)
    {
      var gx := EvaluatePoly(g, support[i], f);
      if gx == 0 {
        found := true;
        break;
      }
    }
  }

  /** The fallback loop: keep the non-roots, stopping once n are kept. The
      support passed in never has more than n elements. */
  method CollectNonRoots(g: Poly, support: seq<Byte>, n: nat, f: Field) returns (valid: seq<Byte>)
    requires f.Sized() && |g| > 0 && |support| <= n
    ensures valid == NonRoots(f, g, support)
  {
    valid := [];
    var i := 0;
    while i < |support|
      invariant 0 <= i <= |support|
      invariant valid == Filter(support[..i], NonRootTest(f, g)) && |valid| <= i
    {
      var x := support[i];
      assert support[..i + 1][..i] == support[..i];
      var gx := EvaluatePoly(g, x, f);
      if gx != 0 {
        valid := valid + [x];
        if |valid| >= n {
          assert i + 1 == |support|;
          i := i + 1;
          break;
        }
      }
      i := i + 1;
    }
    assert support[..|support|] == support;
  }

  /** `generate_valid_goppa_params(n, t)` with the degree m given and the random
      choices passed in: `polyDraws[d]` feeds the d-th call of
      `random_irreducible_poly` (the first, one per retry, and the fallback's),
      `shuffle` and `fallbackShuffle` the two calls of `random_support`. `retries`
      is `retry_count` when the function returns. `None` is the final panic. */
  method GenerateValidGoppaParams(n: nat, t: nat, m: nat, polyDraws: seq<seq<Byte>>,
                                  shuffle: seq<nat>, fallbackShuffle: seq<nat>)
    returns (r: Option<GoppaParams>, retries: nat)
    requires 2 <= m <= 8
    requires |polyDraws| == MaxRetries + 2
    requires forall d | 0 <= d < |polyDraws| ::
      |polyDraws[d]| == t && forall i | 0 <= i < t :: polyDraws[d][i] as int < Pow2(m)
    requires IsPermutation(shuffle, Pow2(m) - 1) && IsPermutation(fallbackShuffle, Pow2(m) - 1)
    ensures retries <= MaxRetries
    ensures r.Some? ==> r.value.field == FieldOfDegree(m) && |r.value.poly| == t + 1
    ensures r.Some? ==> RootFree(r.value.field, r.value.poly, r.value.support, |r.value.support|)
    ensures forall d | 0 <= d < retries ::
      !RootFree(FieldOfDegree(m), MonicFromDraws(t, polyDraws[d]),
                RandomSupport(FieldOfDegree(m), n, shuffle), |RandomSupport(FieldOfDegree(m), n, shuffle)|)
    ensures retries < MaxRetries ==>
      r == Some(GoppaParams(MonicFromDraws(t, polyDraws[retries]),
                            RandomSupport(FieldOfDegree(m), n, shuffle), FieldOfDegree(m)))
    ensures retries == MaxRetries ==>
      var g := MonicFromDraws(t, polyDraws[MaxRetries + 1]);
      var valid := NonRoots(FieldOfDegree(m), g, RandomSupport(FieldOfDegree(m), n, fallbackShuffle));
      r == if |valid| < n then None else Some(GoppaParams(g, valid, FieldOfDegree(m)))
    ensures retries == MaxRetries && r.Some? ==> |r.value.support| == n
  {
    var f := FieldOfDegree(m);
    var goppaPoly := RandomIrreduciblePoly(t, f, polyDraws[0]);
    var support := RandomSupport(f, n, shuffle);
    var found;
    found, goppaPoly, retries := RetryPolys(t, f, goppaPoly, support, polyDraws);
    if found {
      return Some(GoppaParams(goppaPoly, support, f)), retries;
    }
    r := Fallback(n, t, f, polyDraws[MaxRetries + 1], fallbackShuffle);
  }

  /** After the retries: a fresh polynomial and support, of which only the
      non-roots are kept; fewer than n of them is the panic. */
  method Fallback(n: nat, t: nat, f: Field, draws: seq<Byte>, fallbackShuffle: seq<nat>)
    returns (r: Option<GoppaParams>)
    requires f.Sized() && IsPermutation(fallbackShuffle, FieldSize(f) - 1)
    requires |draws| == t && forall i | 0 <= i < t :: draws[i] as int < FieldSize(f)
    ensures var g := MonicFromDraws(t, draws);
      var valid := NonRoots(f, g, RandomSupport(f, n, fallbackShuffle));
      r == if |valid| < n then None else Some(GoppaParams(g, valid, f))
  {
    var goppaPoly := RandomIrreduciblePoly(t, f, draws);
    var support := RandomSupport(f, n, fallbackShuffle);
    var validSupport := CollectNonRoots(goppaPoly, support, n, f);
    if |validSupport| < n {
      return None;
    }
    r := Some(GoppaParams(goppaPoly, validSupport, f));
  }

  /** The `while retry_count < MAX_RETRIES` loop: test the current polynomial
      and, while it has a root in the support, draw the next one. */
  method RetryPolys(t: nat, f: Field, g0: Poly, support: seq<Byte>, polyDraws: seq<seq<Byte>>)
    returns (found: bool, g: Poly, retries: nat)
    requires f.Sized() && |polyDraws| == MaxRetries + 2
    requires forall d | 0 <= d < |polyDraws| ::
      |polyDraws[d]| == t && forall i | 0 <= i < t :: polyDraws[d][i] as int < FieldSize(f)
    requires g0 == MonicFromDraws(t, polyDraws[0])
    ensures retries <= MaxRetries && (found <==> retries < MaxRetries)
    ensures forall d | 0 <= d < retries :: !RootFree(f, MonicFromDraws(t, polyDraws[d]), support, |support|)
    ensures found ==> g == MonicFromDraws(t, polyDraws[retries])
    ensures found ==> RootFree(f, g, support, |support|)
  {
    g := g0;
    retries := 0;
    while retries < MaxRetries
      invariant retries <= MaxRetries
      invariant g == MonicFromDraws(t, polyDraws[retries])
      invariant forall d | 0 <= d < retries :: !RootFree(f, MonicFromDraws(t, polyDraws[d]), support, |support|)
    {
      var hasRoot := HasRootIn(g, support, f);
      if !hasRoot {
        return true, g, retries;
      }
      g := RandomIrreduciblePoly(t, f, polyDraws[retries + 1]);
      retries := retries + 1;
    }
    found := false;
  }
}
