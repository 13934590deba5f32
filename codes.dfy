/** The systematic code constructors: `generate_random_code` (three identical
    copies), `convert_to_systematic` and `generate_hamming_code` (two identical
    copies). All of them build G = [I_k | P] and H = [Pᵀ | I_m] from some block
    P, and every row of such a G has zero syndrome under such an H. */
module Codes {
  import opened Gf2
  import opened Syndrome

  /** A generator matrix and a parity-check matrix, as the constructors return them. */
  datatype Code = Code(g: Matrix, h: Matrix)

  // ---------------------------------------------------------------------------
  // G = [I_k | P] and H = [Pᵀ | I_m] for a k × m block P
  // ---------------------------------------------------------------------------

  function GeneratorEntry(p: Matrix, i: nat, c: nat): Byte
    requires p.Valid() && i < p.rows && c < p.rows + p.cols
  {
    if c < p.rows then (if c == i then 1 else 0) else p.at[i][c - p.rows]
  }

  function ParityEntry(p: Matrix, r: nat, c: nat): Byte
    requires p.Valid() && r < p.cols && c < p.rows + p.cols
  {
    if c < p.rows then p.at[c][r] else if c - p.rows == r then 1 else 0
  }

  /** G = [I_k | P]: k × (k + m). */
  function Generator(p: Matrix): (g: Matrix)
    requires p.Valid()
    ensures g.Valid() && g.rows == p.rows && g.cols == p.rows + p.cols
    ensures forall i, c | 0 <= i < g.rows && 0 <= c < g.cols :: g.at[i][c] == GeneratorEntry(p, i, c)
  {
    Matrix(p.rows, p.rows + p.cols,
      seq(p.rows, i requires 0 <= i < p.rows =>
        seq(p.rows + p.cols, c requires 0 <= c < p.rows + p.cols => GeneratorEntry(p, i, c))))
  }

  /** H = [Pᵀ | I_m]: m × (k + m). */
  function ParityCheck(p: Matrix): (h: Matrix)
    requires p.Valid()
    ensures h.Valid() && h.rows == p.cols && h.cols == p.rows + p.cols
    ensures forall r, c | 0 <= r < h.rows && 0 <= c < h.cols :: h.at[r][c] == ParityEntry(p, r, c)
  {
    Matrix(p.cols, p.rows + p.cols,
      seq(p.cols, r requires 0 <= r < p.cols =>
        seq(p.rows + p.cols, c requires 0 <= c < p.rows + p.cols => ParityEntry(p, r, c))))
  }

  /** The contribution of position c to a fold. */
  function Term(hr: seq<Byte>, gr: seq<Byte>, c: nat): Byte
    requires c < |hr| && c < |gr|
  {
    hr[c] & gr[c]
  }

  /** Positions that contribute nothing leave the fold unchanged. */
  lemma {:induction false} DotFoldSkip(hr: seq<Byte>, gr: seq<Byte>, lo: nat, t: nat)
    requires lo <= t <= |hr| == |gr|
    requires forall c | lo <= c < t :: Term(hr, gr, c) == 0
    ensures DotFold(hr, gr, t) == DotFold(hr, gr, lo)
  {
    if lo < t {
      DotFoldSkip(hr, gr, lo, t - 1);
      assert DotFold(hr, gr, t) == DotFold(hr, gr, t - 1) ^ Term(hr, gr, t - 1);
      XorZero(DotFold(hr, gr, t - 1), Term(hr, gr, t - 1));
    }
  }

  /** A fold to which only positions i and j contribute, both the same value,
      is zero. */
  lemma DotFoldTwo(hr: seq<Byte>, gr: seq<Byte>, i: nat, j: nat)
    requires |hr| == |gr| && i < j < |hr|
    requires forall c | 0 <= c < |hr| && c != i && c != j :: Term(hr, gr, c) == 0
    requires Term(hr, gr, i) == Term(hr, gr, j)
    ensures DotFold(hr, gr, |hr|) == 0
  {
    DotFoldSkip(hr, gr, 0, i);
    assert DotFold(hr, gr, i + 1) == DotFold(hr, gr, i) ^ Term(hr, gr, i);
    ZeroXor(DotFold(hr, gr, i), Term(hr, gr, i));
    DotFoldSkip(hr, gr, i + 1, j);
    assert DotFold(hr, gr, j + 1) == DotFold(hr, gr, j) ^ Term(hr, gr, j);
    XorSelf(DotFold(hr, gr, j), Term(hr, gr, j));
    DotFoldSkip(hr, gr, j + 1, |hr|);
  }

  lemma XorZero(a: Byte, b: Byte)
    requires b == 0
    ensures a ^ b == a
  {
  }

  lemma ZeroXor(a: Byte, b: Byte)
    requires a == 0
    ensures a ^ b == b
  {
  }

  lemma XorSelf(a: Byte, b: Byte)
    requires a == b
    ensures a ^ b == 0
  {
  }

  /** G·Hᵀ ≡ 0 (mod 2) for every block P, not only a 0/1 one: row r of H meets
      row i of G in exactly two places, column i and column k + r, and both
      products are `p[i][r] & 1`, which cancel under XOR. */
  lemma SystematicOrthogonal(p: Matrix, i: nat)
    requires p.Valid() && i < p.rows
    ensures CalculateSyndrome(Generator(p).at[i], ParityCheck(p)) == Zeros(p.cols)
  {
    var g := Generator(p).at[i];
    var h := ParityCheck(p);
    forall r | 0 <= r < p.cols
      ensures Dot(h.at[r], g) == 0
    {
      assert Term(h.at[r], g, i) == p.at[i][r] & 1;
      assert Term(h.at[r], g, p.rows + r) == 1 & p.at[i][r];
      DotFoldTwo(h.at[r], g, i, p.rows + r);
      assert Dot(h.at[r], g) == DotFold(h.at[r], g, |g|);
    }
  }

  /** For a 0/1 block the same holds for the `(h · v) mod 2` syndrome. */
  lemma SystematicOrthogonalMod2(p: Matrix, i: nat)
    requires p.Valid() && p.Binary() && i < p.rows
    ensures SyndromeMod2(Generator(p).at[i], ParityCheck(p)) == Zeros(p.cols)
  {
    var g := Generator(p);
    var h := ParityCheck(p);
    assert IsBinary(g.at[i]) by {
      forall c | 0 <= c < g.cols ensures g.at[i][c] <= 1 {
        assert g.at[i][c] == GeneratorEntry(p, i, c);
      }
    }
    assert h.Binary() by {
      forall r, c | 0 <= r < h.rows && 0 <= c < h.cols ensures h.at[r][c] <= 1 {
        assert h.at[r][c] == ParityEntry(p, r, c);
      }
    }
    SyndromeMod2Agrees(h, g.at[i]);
    SystematicOrthogonal(p, i);
  }

  // ---------------------------------------------------------------------------
  // generate_random_code
  // ---------------------------------------------------------------------------

  /** `generate_random_code(n, k)` with the random k × (n − k) block `p` passed in:
      the nested index loops build exactly [I_k | P] and [Pᵀ | I_{n−k}]. */
  method GenerateRandomCode(n: nat, k: nat, p: Matrix) returns (g: Matrix, h: Matrix)
    requires k < n
    requires p.Valid() && p.rows == k && p.cols == n - k
    ensures g == Generator(p) && h == ParityCheck(p)
  {
    g := FillGenerator(n, k, p);
    h := FillParityCheck(n, k, p);
  }

  /** The loops that write G: the identity, then P beside it. */
  method FillGenerator(n: nat, k: nat, p: Matrix) returns (g: Matrix)
    requires k <= n && p.Valid() && p.rows == k && p.cols == n - k
    ensures g == Generator(p)
  {
    g := ZeroMatrix(k, n);
    for i := 0 to k
      invariant g.Valid() && g.rows == k && g.cols == n
      invariant forall r, c | 0 <= r < k && 0 <= c < n :: g.at[r][c] == if r < i && c == r then 1 else 0
    {
      g := SetEntry(g, i, i, 1);
    }
    for i := 0 to k
      invariant g.Valid() && g.rows == k && g.cols == n
      invariant forall r, c | 0 <= r < k && 0 <= c < n ::
        g.at[r][c] == if c < k then (if c == r then 1 else 0) else if r < i then p.at[r][c - k] else 0
    {
      for j := 0 to n - k
        invariant g.Valid() && g.rows == k && g.cols == n
        invariant forall r, c | 0 <= r < k && 0 <= c < n ::
          g.at[r][c] == if c < k then (if c == r then 1 else 0)
                        else if r < i || (r == i && c - k < j) then p.at[r][c - k] else 0
      {
        g := SetEntry(g, i, k + j, p.at[i][j]);
      }
    }
    MatrixExt(g, Generator(p));
  }

  /** The loops that write H: the identity on the right, then Pᵀ on the left. */
  method FillParityCheck(n: nat, k: nat, p: Matrix) returns (h: Matrix)
    requires k <= n && p.Valid() && p.rows == k && p.cols == n - k
    ensures h == ParityCheck(p)
  {
    h := ZeroMatrix(n - k, n);
    for i := 0 to n - k
      invariant h.Valid() && h.rows == n - k && h.cols == n
      invariant forall r, c | 0 <= r < n - k && 0 <= c < n ::
        h.at[r][c] == if c >= k && c - k == r && r < i then 1 else 0
    {
      h := SetEntry(h, i, k + i, 1);
    }
    for i := 0 to k
      invariant h.Valid() && h.rows == n - k && h.cols == n
      invariant forall r, c {:trigger h.at[r][c]} | 0 <= r < n - k && 0 <= c < n ::
        h.at[r][c] == if c >= k then (if c - k == r then 1 else 0) else if c < i then p.at[c][r] else 0
    {
      for j := 0 to n - k
        invariant h.Valid() && h.rows == n - k && h.cols == n
        invariant forall r, c {:trigger h.at[r][c]} | 0 <= r < n - k && 0 <= c < n ::
          h.at[r][c] == if c >= k then (if c - k == r then 1 else 0)
                        else if c < i || (c == i && r < j) then p.at[c][r] else 0
      {
        h := SetEntry(h, j, i, p.at[i][j]);
      }
    }
    MatrixExt(h, ParityCheck(p));
  }

  // ---------------------------------------------------------------------------
  // convert_to_systematic
  // ---------------------------------------------------------------------------

  /** `h.slice(s![.., ..k]).t()`: the k × m block read off the left of an m × n h. */
  function LeftBlockTransposed(h: Matrix): (p: Matrix)
    requires h.Valid() && h.rows <= h.cols
    ensures p.Valid() && p.rows == h.cols - h.rows && p.cols == h.rows
  {
    Matrix(h.cols - h.rows, h.rows,
      seq(h.cols - h.rows, i requires 0 <= i < h.cols - h.rows =>
        seq(h.rows, j requires 0 <= j < h.rows => h.at[j][i])))
  }

  /** `convert_to_systematic(h)` for an m × n h (k = n − m): H keeps h's left k
      columns and puts I_m on the right; G is [I_k | (left block)ᵀ]. No
      elimination takes place. */
  function ConvertToSystematic(h: Matrix): (c: Code)
    requires h.Valid() && h.rows <= h.cols
    ensures c.g.Valid() && c.g.rows == h.cols - h.rows && c.g.cols == h.cols
    ensures c.h.Valid() && c.h.rows == h.rows && c.h.cols == h.cols
    ensures forall r, j | 0 <= r < h.rows && 0 <= j < h.cols - h.rows :: c.h.at[r][j] == h.at[r][j]
    ensures forall r, j | 0 <= r < h.rows && h.cols - h.rows <= j < h.cols ::
      c.h.at[r][j] == if j - (h.cols - h.rows) == r then 1 else 0
    ensures forall i, j | 0 <= i < h.cols - h.rows && 0 <= j < h.cols - h.rows ::
      c.g.at[i][j] == if i == j then 1 else 0
    ensures forall i, j | 0 <= i < h.cols - h.rows && h.cols - h.rows <= j < h.cols ::
      c.g.at[i][j] == h.at[j - (h.cols - h.rows)][i]
  {
    var p := LeftBlockTransposed(h);
    Code(Generator(p), ParityCheck(p))
  }

  /** Columns `k..n` of the input do not affect the result. */
  lemma ConvertIgnoresRight(h1: Matrix, h2: Matrix)
    requires h1.Valid() && h2.Valid() && h1.rows == h2.rows && h1.cols == h2.cols && h1.rows <= h1.cols
    requires forall r, j | 0 <= r < h1.rows && 0 <= j < h1.cols - h1.rows :: h1.at[r][j] == h2.at[r][j]
    ensures ConvertToSystematic(h1) == ConvertToSystematic(h2)
  {
    MatrixExt(LeftBlockTransposed(h1), LeftBlockTransposed(h2));
  }

  /** Every row of the output G has zero syndrome under the output H. */
  lemma ConvertOrthogonal(h: Matrix, i: nat)
    requires h.Valid() && h.rows <= h.cols && i < h.cols - h.rows
    ensures CalculateSyndrome(ConvertToSystematic(h).g.at[i], ConvertToSystematic(h).h) == Zeros(h.rows)
  {
    SystematicOrthogonal(LeftBlockTransposed(h), i);
  }

  /** Without elimination the output H need not define the input's code:
      for h = [1 0], the word (0, 1) has zero syndrome under h but not under
      the output [1 1]. */
  lemma ConvertChangesCode()
    ensures Matrix(1, 2, [[1, 0]]).Valid()
    ensures CalculateSyndrome([0, 1], Matrix(1, 2, [[1, 0]])) == [0]
    ensures CalculateSyndrome([0, 1], ConvertToSystematic(Matrix(1, 2, [[1, 0]])).h) == [1]
  {
    var h := Matrix(1, 2, [[1, 0]]);
    var c := ConvertToSystematic(h);
    assert c.h.at[0][0] == 1 && c.h.at[0][1] == 1;
    assert c.h.at[0] == [1, 1];
    assert DotFold([1, 0], [0, 1], 1) == 0;
    assert Dot([1, 0], [0, 1]) == DotFold([1, 0], [0, 1], 2) == 0;
    assert DotFold([1, 1], [0, 1], 1) == 0;
    assert Dot([1, 1], [0, 1]) == DotFold([1, 1], [0, 1], 2) == 1;
    assert CalculateSyndrome([0, 1], h) == [Dot(h.at[0], [0, 1])];
    assert CalculateSyndrome([0, 1], c.h) == [Dot(c.h.at[0], [0, 1])];
  }

  // ---------------------------------------------------------------------------
  // generate_hamming_code
  // ---------------------------------------------------------------------------

  /** `format!("{:b}", v)` as digit values, most significant first. */
  function BinaryDigits(v: nat): (d: seq<Byte>)
    ensures |d| >= 1 && IsBinary(d)
    decreases v
  {
    if v < 2 then [if v == 0 then 0 else 1] else BinaryDigits(v / 2) + [if v % 2 == 0 then 0 else 1]
  }

  /** `format!("{:0>width$b}", v)`: zeros on the left up to `width` digits;
      a longer representation is kept whole. */
  function PaddedBinary(v: nat, width: nat): (d: seq<Byte>)
    ensures |d| >= width && IsBinary(d)
  {
    var b := BinaryDigits(v);
    if |b| < width then Zeros(width - |b|) + b else b
  }

  /** Bit b of v, counting from the least significant. */
  function BitOf(v: nat, b: nat): Byte
    decreases b
  {
    if b == 0 then (if v % 2 == 0 then 0 else 1) else BitOf(v / 2, b - 1)
  }

  /** The initial m × n Hamming matrix: row `row` of column `col` is digit `row`
      of the padded binary form of `col + 1`. */
  function HammingMatrix(n: nat, m: nat): (h: Matrix)
    ensures h.Valid() && h.rows == m && h.cols == n
  {
    Matrix(m, n, seq(m, row requires 0 <= row < m => seq(n, col requires 0 <= col < n => PaddedBinary(col + 1, m)[row])))
  }

  lemma {:induction false} DigitsValue(v: nat)
    ensures v < Pow2(|BinaryDigits(v)|)
    ensures v >= 1 ==> BinaryDigits(v)[0] == 1
    ensures forall i | 0 <= i < |BinaryDigits(v)| :: BinaryDigits(v)[i] == BitOf(v, |BinaryDigits(v)| - 1 - i)
    decreases v
  {
    if v >= 2 {
      DigitsValue(v / 2);
      var d := BinaryDigits(v);
      var h := BinaryDigits(v / 2);
      assert d == h + [if v % 2 == 0 then 0 else 1];
      forall i | 0 <= i < |d| ensures d[i] == BitOf(v, |d| - 1 - i) {
        if i < |h| {
          assert BitOf(v, |d| - 1 - i) == BitOf(v / 2, |h| - 1 - i);
        }
      }
    }
  }

  lemma {:induction false} BitOfSmall(v: nat, b: nat)
    requires v < Pow2(b)
    ensures BitOf(v, b) == 0
  {
    if b > 0 {
      BitOfSmall(v / 2, b - 1);
    }
  }

  lemma {:induction false} Pow2Monotone(a: nat, b: nat)
    requires a <= b
    ensures Pow2(a) <= Pow2(b)
    decreases b
  {
    if a < b {
      Pow2Monotone(a, b - 1);
    }
  }

  /** When `v < 2^width` the padded form is exactly `width` digits: the bits of
      v, most significant first. */
  lemma PaddedBits(v: nat, width: nat)
    requires v < Pow2(width)
    ensures |PaddedBinary(v, width)| == width || (v == 0 && width == 0)
    ensures forall i | 0 <= i < width :: PaddedBinary(v, width)[i] == BitOf(v, width - 1 - i)
  {
    DigitsValue(v);
    var b := BinaryDigits(v);
    var d := PaddedBinary(v, width);
    if |b| > width && width > 0 {
      // v has a 1 in position |b| - 1 >= width, yet v < 2^width
      assert b[0] == BitOf(v, |b| - 1);
      BitOfSmall(v, |b| - 1) by { Pow2Monotone(width, |b| - 1); }
      assert false;
    }
    if width == 0 {
      assert v == 0;
    }
    forall i | 0 <= i < width ensures d[i] == BitOf(v, width - 1 - i) {
      if |b| < width && i < width - |b| {
        Pow2Monotone(|b|, width - 1 - i);
        BitOfSmall(v, width - 1 - i);
      }
    }
  }

  /** Column `col` of the initial H is the m-bit binary form of `col + 1`, most
      significant bit in row 0, whenever `col + 1 < 2^m`. */
  lemma HammingColumn(n: nat, m: nat, col: nat, row: nat)
    requires col < n && row < m && col + 1 < Pow2(m)
    ensures HammingMatrix(n, m).at[row][col] == BitOf(col + 1, m - 1 - row)
  {
    PaddedBits(col + 1, m);
  }

  /** `generate_hamming_code(n, k)`: the binary-column matrix, then the same
      block rearrangement as `convert_to_systematic`, so its G·Hᵀ ≡ 0 is
      `ConvertOrthogonal`. */
  method GenerateHammingCode(n: nat, k: nat) returns (g: Matrix, h: Matrix)
    requires k <= n
    ensures Code(g, h) == ConvertToSystematic(HammingMatrix(n, n - k))
  {
    var m := n - k;
    var h0 := ZeroMatrix(m, n);
    for col := 0 to n
      invariant h0.Valid() && h0.rows == m && h0.cols == n
      invariant forall r, c | 0 <= r < m && 0 <= c < n ::
        h0.at[r][c] == if c < col then PaddedBinary(c + 1, m)[r] else 0
    {
      var binaryRepr := PaddedBinary(col + 1, m);
      for row := 0 to m
        invariant h0.Valid() && h0.rows == m && h0.cols == n
        invariant forall r, c | 0 <= r < m && 0 <= c < n ::
          h0.at[r][c] == if c < col || (c == col && r < row) then PaddedBinary(c + 1, m)[r] else 0
      {
        h0 := SetEntry(h0, row, col, binaryRepr[row]);
      }
    }
    MatrixExt(h0, HammingMatrix(n, m));
    var c := ConvertToSystematic(h0);
    g, h := c.g, c.h;
  }
}
