/** The Patterson-style decoder of src/algorithms/patterson.rs: the syndrome
    polynomial, its extension to 2t terms, Berlekamp–Massey, the root search
    over the support, and the brute-force completions, each checked against
    the parity-check matrix. The arithmetic is the source's `field_multiply`
    and `inverse`, which need not form a field, so what is proved is the
    shape of each stage, that no call can panic, and that every non-trivial
    answer passed an H-check. */
module Patterson {
  import opened Gf2
  import opened FiniteField
  import opened Polynomials
  import opened Syndrome
  import opened Goppa

  // ---------------------------------------------------------------------------
  // compute_syndrome_polynomial
  // ---------------------------------------------------------------------------

  /** Every position the loop over `0..n` reads from the support is there:
      `support[i]` is only read where `received[i] == 1`. */
  predicate Reaches(received: seq<Byte>, support: seq<Byte>, n: nat) {
    n <= |received| && forall i | 0 <= i < n && received[i] == 1 :: i < |support|
  }

  /** Position i adds to the syndrome: a 1 received at a non-zero support
      element that is not a root of g. */
  predicate Active(f: Field, received: seq<Byte>, support: seq<Byte>, g: Poly, i: nat)
    requires f.Sized() && |g| > 0 && i < |received|
  {
    received[i] == 1 && i < |support| && support[i] != 0 && Eval(f, g, support[i]) != 0
  }

  /** The t terms `inv · x^j` one active position adds, with the powers
      x^j formed by repeated `field_multiply`. */
  function Contribution(f: Field, x: Byte, inv: Byte, t: nat): (c: seq<Byte>)
    requires f.Sized()
    ensures |c| == t
  {
    seq(t, j requires 0 <= j < t => Mul(f, inv, PowerOf(f, x, j)))
  }

  /** The syndrome after the first k positions: t = |g| − 1 coefficients, each
      the XOR of the active positions' terms. */
  function SyndromePoly(f: Field, received: seq<Byte>, support: seq<Byte>, g: Poly, k: nat): (s: seq<Byte>)
    requires f.Sized() && |g| > 0 && Reaches(received, support, k)
    ensures |s| == |g| - 1
  {
    if k == 0 then Zeros(|g| - 1)
    else
      var s := SyndromePoly(f, received, support, g, k - 1);
      if Active(f, received, support, g, k - 1)
      then Xor(s, Contribution(f, support[k - 1], Inv(f, Eval(f, g, support[k - 1])), |g| - 1))
      else s
  }

  /** `compute_syndrome_polynomial(received, support, goppa_poly, field, n)`:
      `inverse` is only reached with a non-zero `g(x)`. */
  method ComputeSyndromePolynomial(received: seq<Byte>, support: seq<Byte>, g: Poly, f: Field, n: nat)
    returns (syndrome: seq<Byte>)
    requires f.Sized() && |g| > 0 && Reaches(received, support, n)
    ensures syndrome == SyndromePoly(f, received, support, g, n)
  {
    var t := |g| - 1;
    syndrome := Zeros(t);
    for i := 0 to n
      invariant syndrome == SyndromePoly(f, received, support, g, i)
    {
      if received[i] == 1 {
        var x := support[i];
        if x == 0 {
          continue;
        }
        var gx := EvaluatePoly(g, x, f);
        if gx == 0 {
          continue;
        }
        var inv := Inverse(f, gx);
        syndrome := AddContribution(syndrome, f, x, inv);
      }
    }
  }

  /** The inner loop: XOR `inv · x^j` into coefficient j. */
  method AddContribution(s: seq<Byte>, f: Field, x: Byte, inv: Byte) returns (r: seq<Byte>)
    requires f.Sized()
    ensures r == Xor(s, Contribution(f, x, inv, |s|))
  {
    r := s;
    var power: Byte := 1;
    for j := 0 to |s|
      invariant |r| == |s| && power == PowerOf(f, x, j)
      invariant forall i | 0 <= i < |s| :: r[i] == if i < j then s[i] ^ Mul(f, inv, PowerOf(f, x, i)) else s[i]
    {
      var term := FieldMultiply(f, inv, power);
      r := r[j := r[j] ^ term];
      power := FieldMultiply(f, power, x);
    }
  }

  /** No 1 received, no syndrome. */
  lemma {:induction false} SyndromeOfNoErrors(f: Field, received: seq<Byte>, support: seq<Byte>, g: Poly, k: nat)
    requires f.Sized() && |g| > 0 && k <= |received|
    requires forall i | 0 <= i < k :: received[i] != 1
    ensures Reaches(received, support, k) && IsZero(SyndromePoly(f, received, support, g, k))
  {
    if k > 0 {
      SyndromeOfNoErrors(f, received, support, g, k - 1);
    }
  }

  /** The syndrome of two disjoint 0/1 error patterns together is the XOR of
      their syndromes: each position adds its terms independently of the
      others, so the order of accumulation is immaterial. */
  lemma {:induction false} SyndromeDisjointUnion(f: Field, a: seq<Byte>, b: seq<Byte>, support: seq<Byte>, g: Poly, k: nat)
    requires f.Sized() && |g| > 0 && |a| == |b| && IsBinary(a) && IsBinary(b)
    requires forall i | 0 <= i < |a| :: a[i] == 0 || b[i] == 0
    requires Reaches(a, support, k) && Reaches(b, support, k)
    ensures Reaches(Xor(a, b), support, k)
    ensures SyndromePoly(f, Xor(a, b), support, g, k)
         == Xor(SyndromePoly(f, a, support, g, k), SyndromePoly(f, b, support, g, k))
  {
    var ab := Xor(a, b);
    assert forall i | 0 <= i < |a| :: ab[i] == 1 <==> a[i] == 1 || b[i] == 1;
    if k > 0 {
      SyndromeDisjointUnion(f, a, b, support, g, k - 1);
    }
  }

  // ---------------------------------------------------------------------------
  // The extended syndrome
  // ---------------------------------------------------------------------------

  /** Term j of entry i: `S_j · S_{i−j}` when both indices are original. */
  function ExtraTerm(f: Field, s: seq<Byte>, i: nat, j: nat): Byte
    requires f.Sized() && j <= i
  {
    if j < |s| && i - j < |s| then Mul(f, s[j], s[i - j]) else 0
  }

  /** The XOR of terms 1 .. j of entry i. */
  function ExtraFold(f: Field, s: seq<Byte>, i: nat, j: nat): Byte
    requires f.Sized() && j <= i
  {
    if j == 0 then 0 else ExtraFold(f, s, i, j - 1) ^ ExtraTerm(f, s, i, j)
  }

  /** The syndrome resized to 2t when shorter, the new entries derived from the
      old ones only when t > 2. */
  function ExtendedSyndrome(f: Field, s: seq<Byte>, t: nat): (e: seq<Byte>)
    requires f.Sized()
    ensures |e| == Max(|s|, 2 * t) && e[..|s|] == s
    ensures t <= 2 ==> forall i | |s| <= i < |e| :: e[i] == 0
    ensures t > 2 ==> forall i | |s| <= i < |e| :: e[i] == ExtraFold(f, s, i, i / 2)
  {
    if |s| >= 2 * t then s
    else
      seq(2 * t, i requires 0 <= i < 2 * t =>
        if i < |s| then s[i] else if t > 2 then ExtraFold(f, s, i, i / 2) else 0)
  }

  /** The resize and, for t > 2, the nested loops filling entries
      `original_length .. 2t`. */
  method ExtendSyndrome(s: seq<Byte>, f: Field, t: nat) returns (e: seq<Byte>)
    requires f.Sized()
    ensures e == ExtendedSyndrome(f, s, t)
  {
    e := s;
    if |e| < 2 * t {
      var originalLength := |e|;
      e := e + Zeros(2 * t - originalLength);
      if t > 2 {
        for i := originalLength to 2 * t
          invariant |e| == 2 * t && e[..|s|] == s
          invariant forall k | |s| <= k < 2 * t :: e[k] == if k < i then ExtraFold(f, s, k, k / 2) else 0
        {
          var si := ExtraEntry(e, s, f, i);
          e := e[i := si];
        }
      }
      assert e == ExtendedSyndrome(f, s, t);
    }
  }

  /** `for j in 1..=i / 2`, reading the original entries of `extended_syndrome`. */
  method ExtraEntry(e: seq<Byte>, s: seq<Byte>, f: Field, i: nat) returns (si: Byte)
    requires f.Sized() && |s| <= |e| && e[..|s|] == s
    ensures si == ExtraFold(f, s, i, i / 2)
  {
    si := 0;
    for j := 1 to i / 2 + 1
      invariant si == ExtraFold(f, s, i, j - 1)
    {
      if j < |s| && i - j < |s| {
        assert e[j] == s[j] && e[i - j] == s[i - j];
        var p := FieldMultiply(f, e[j], e[i - j]);
        si := si ^ p;
      }
    }
  }

  // ---------------------------------------------------------------------------
  // berlekamp_massey
  // ---------------------------------------------------------------------------

  /** The loop state: `connection_poly`, `prev_connection_poly`, `lfsr_length`,
      `last_discrepancy` and `iterations_since_change`. */
  datatype Lfsr = Lfsr(conn: Poly, prev: Poly, len: nat, last: Byte, gap: nat)

  /** What holds at the start of step n: both polynomials start with 1, the
      scalar to be inverted is non-zero, every shift is by at least 1, and
      the register is no longer than n, so `syndrome_seq[n - i]` is in range. */
  predicate LfsrInvariant(st: Lfsr, n: nat) {
    |st.conn| >= 1 && st.conn[0] == 1 && |st.prev| >= 1 && st.prev[0] == 1
    && st.last != 0 && st.gap >= 1 && st.len <= n
  }

  /** `syndrome[n] ^ conn[1]·S[n−1] ^ … ^ conn[i]·S[n−i]`, skipping indices past
      the end of `conn`. */
  function DiscrepancyFold(f: Field, s: seq<Byte>, conn: Poly, n: nat, i: nat): Byte
    requires f.Sized() && i <= n < |s|
  {
    if i == 0 then s[n]
    else DiscrepancyFold(f, s, conn, n, i - 1) ^ (if i < |conn| then Mul(f, conn[i], s[n - i]) else 0)
  }

  /** `z^gap · prev(z)`, every coefficient scaled by `factor` (the shifted-in
      zeros as well, as the source's loop does). */
  function Shifted(f: Field, prev: Poly, gap: nat, factor: Byte): (r: Poly)
    requires f.Sized()
    ensures |r| == gap + |prev|
    ensures forall i | 0 <= i < |r| :: r[i] == Mul(f, if i < gap then 0 else prev[i - gap], factor)
  {
    seq(gap + |prev|, i requires 0 <= i < gap + |prev| => Mul(f, if i < gap then 0 else prev[i - gap], factor))
  }

  /** One iteration of `for n in 0..2 * t`. */
  function BmStep(f: Field, s: seq<Byte>, st: Lfsr, n: nat): (r: Lfsr)
    requires f.Sized() && n < |s| && LfsrInvariant(st, n)
  {
    var d := DiscrepancyFold(f, s, st.conn, n, st.len);
    if d == 0 then st.(gap := st.gap + 1)
    else
      var factor := Mul(f, d, Inv(f, st.last));
      var c := PolyAdd(st.conn, Shifted(f, st.prev, st.gap, factor));
      if 2 * st.len <= n then Lfsr(c, st.conn, n + 1 - st.len, d, 1)
      else st.(conn := c, gap := st.gap + 1)
  }

  /** Each step keeps the invariant: the shift is at least 1, so the added
      polynomial has a zero constant term and `conn[0]` stays 1. */
  lemma BmStepInvariant(f: Field, s: seq<Byte>, st: Lfsr, n: nat)
    requires f.Sized() && n < |s| && LfsrInvariant(st, n)
    ensures LfsrInvariant(BmStep(f, s, st, n), n + 1)
  {
    var d := DiscrepancyFold(f, s, st.conn, n, st.len);
    if d != 0 {
      var factor := Mul(f, d, Inv(f, st.last));
      var x := XorPad(st.conn, Shifted(f, st.prev, st.gap, factor));
      assert x[0] == 1;
      TrimShape(x);
    }
  }

  /** The state after the first n steps. */
  function BmUpTo(f: Field, s: seq<Byte>, n: nat): (st: Lfsr)
    requires f.Sized() && n <= |s|
    ensures LfsrInvariant(st, n)
  {
    if n == 0 then Lfsr([1], [1], 0, 1, 1)
    else
      var st := BmUpTo(f, s, n - 1);
      BmStepInvariant(f, s, st, n - 1);
      BmStep(f, s, st, n - 1)
  }

  function Reverse(p: Poly): (r: Poly)
    ensures |r| == |p| && forall i | 0 <= i < |p| :: r[i] == p[|p| - 1 - i]
  {
    seq(|p|, i requires 0 <= i < |p| => p[|p| - 1 - i])
  }

  /** The syndrome zero-padded to `len` when shorter. */
  function PadTo(s: seq<Byte>, len: nat): (r: seq<Byte>)
    ensures |r| == Max(|s|, len) && r[..|s|] == s
  {
    if |s| < len then s + Zeros(len - |s|) else s
  }

  /** `berlekamp_massey(syndrome, field, t)`: the connection polynomial after
      2t steps, reversed and cut to t + 1 coefficients. It is never empty, and
      unless it was cut its last coefficient is the constant 1 of the
      connection polynomial. */
  function BmResult(f: Field, syndrome: seq<Byte>, t: nat): (sigma: Poly)
    requires f.Sized()
    ensures 1 <= |sigma| <= t + 1
    ensures |BmUpTo(f, PadTo(syndrome, 2 * t), 2 * t).conn| <= t + 1 ==> sigma[|sigma| - 1] == 1
  {
    var r := Reverse(BmUpTo(f, PadTo(syndrome, 2 * t), 2 * t).conn);
    if |r| > t + 1 then r[..t + 1] else r
  }

  method BerlekampMassey(syndrome: seq<Byte>, f: Field, t: nat) returns (sigma: Poly)
    requires f.Sized()
    ensures sigma == BmResult(f, syndrome, t)
  {
    var s := syndrome;
    if |s| < 2 * t {
      s := s + Zeros(2 * t - |s|);
    }
    assert s == PadTo(syndrome, 2 * t);
    var st := RunLfsr(s, f, 2 * t);
    var conn := st.conn;
    sigma := Reverse(conn);
    if |sigma| > t + 1 {
      sigma := sigma[..t + 1];
    }
  }

  /** `for n in 0..2 * t` from the initial state. */
  method RunLfsr(s: seq<Byte>, f: Field, steps: nat) returns (st: Lfsr)
    requires f.Sized() && steps <= |s|
    ensures st == BmUpTo(f, s, steps)
  {
    st := Lfsr([1], [1], 0, 1, 1);
    for n := 0 to steps
      invariant st == BmUpTo(f, s, n)
    {
      st := BmTurn(s, f, st, n);
    }
  }

  /** The body of `for n in 0..2 * t`: both branches of `2 * lfsr_length <= n`
      build the same correction; only the first moves the register. */
  method BmTurn(s: seq<Byte>, f: Field, st: Lfsr, n: nat) returns (r: Lfsr)
    requires f.Sized() && n < |s| && LfsrInvariant(st, n)
    ensures r == BmStep(f, s, st, n)
  {
    var d := ComputeDiscrepancy(s, f, st.conn, st.len, n);
    if d == 0 {
      return st.(gap := st.gap + 1);
    }
    var inv := Inverse(f, st.last);
    var factor := FieldMultiply(f, d, inv);
    var shifted := ShiftScale(st.prev, st.gap, factor, f);
    var c := PolynomialAdd(st.conn, shifted);
    if 2 * st.len <= n {
      r := Lfsr(c, st.conn, n + 1 - st.len, d, 1);
    } else {
      r := st.(conn := c, gap := st.gap + 1);
    }
  }

  /** The discrepancy loop `for i in 1..=lfsr_length`. */
  method ComputeDiscrepancy(s: seq<Byte>, f: Field, conn: Poly, len: nat, n: nat) returns (d: Byte)
    requires f.Sized() && len <= n < |s|
    ensures d == DiscrepancyFold(f, s, conn, n, len)
  {
    d := s[n];
    for i := 1 to len + 1
      invariant d == DiscrepancyFold(f, s, conn, n, i - 1)
    {
      if i < |conn| {
        var p := FieldMultiply(f, conn[i], s[n - i]);
        d := d ^ p;
      }
    }
  }

  /** The shifted copy of `prev` and the scaling loop over it. */
  method ShiftScale(prev: Poly, gap: nat, factor: Byte, f: Field) returns (r: Poly)
    requires f.Sized()
    ensures r == Shifted(f, prev, gap, factor)
  {
    r := Zeros(gap) + prev;
    for i := 0 to |r|
      invariant |r| == gap + |prev|
      invariant forall k | 0 <= k < |r| ::
        r[k] == if k < i then Mul(f, if k < gap then 0 else prev[k - gap], factor)
                else if k < gap then 0 else prev[k - gap]
    {
      var x := FieldMultiply(f, r[i], factor);
      r := r[i := x];
    }
  }

  // ---------------------------------------------------------------------------
  // evaluate_poly_horner and find_roots
  // ---------------------------------------------------------------------------

  /** `evaluate_poly_horner(poly, x)`: `result = result · x + coef` from the top
      coefficient down, starting at 0. On every non-empty polynomial it agrees
      with `evaluate_poly`. */
  method EvaluatePolyHorner(p: Poly, x: Byte, f: Field) returns (r: Byte)
    requires f.Sized()
    ensures |p| == 0 ==> r == 0
    ensures |p| > 0 ==> r == Eval(f, p, x)
  {
    r := 0;
    var i := |p|;
    while i > 0
      invariant 0 <= i <= |p|
      invariant if i == |p| then r == 0 else r == Horner(f, p[i..], x)
    {
      i := i - 1;
      var y := FieldMultiply(f, r, x);
      if i < |p| - 1 {
        assert p[i..][1..] == p[i + 1..];
      }
      r := FieldAdd(y, p[i]);
    }
    if |p| > 0 {
      assert p[0..] == p;
      HornerAtZero(f, p);
    }
  }

  /** The test `find_roots` applies to support index i. */
  function RootTest(f: Field, sigma: Poly, support: seq<Byte>): nat -> bool {
    (i: nat) => f.Sized() && |sigma| > 0 && i < |support| && Eval(f, sigma, support[i]) == 0
  }

  /** Nothing for a constant or zero sigma; otherwise the indices below
      min(n, |support|) whose support element is a root, in increasing order. */
  function RootPositions(f: Field, sigma: Poly, support: seq<Byte>, n: nat): (r: seq<nat>)
  {
    if |sigma| <= 1 || IsZero(sigma) then []
    else Filter(Range(0, Min(n, |support|)), RootTest(f, sigma, support))
  }

  /** The positions are increasing, in range, roots, and all the roots. */
  lemma RootPositionsExact(f: Field, sigma: Poly, support: seq<Byte>, n: nat)
    requires f.Sized() && |sigma| > 1 && !IsZero(sigma)
    ensures Increasing(RootPositions(f, sigma, support, n))
    ensures forall k | 0 <= k < |RootPositions(f, sigma, support, n)| ::
      var i := RootPositions(f, sigma, support, n)[k];
      i < n && i < |support| && Eval(f, sigma, support[i]) == 0
    ensures forall i | 0 <= i < n && i < |support| && Eval(f, sigma, support[i]) == 0 ::
      i in RootPositions(f, sigma, support, n)
  {
    var range := Range(0, Min(n, |support|));
    FilterIncreasing(range, RootTest(f, sigma, support));
    var r := RootPositions(f, sigma, support, n);
    forall k | 0 <= k < |r| ensures r[k] < n {
      var j :| 0 <= j < |range| && range[j] == r[k];
    }
    forall i | 0 <= i < n && i < |support| && Eval(f, sigma, support[i]) == 0 ensures i in r {
      assert range[i] == i && RootTest(f, sigma, support)(i);
      FilterComplete<nat>(range, RootTest(f, sigma, support), i);
    }
  }

  /** `find_roots(sigma, support, field, n)`: both evaluations agree, so
      `y1 == 0 || y2 == 0` is the test `y1 == 0`. */
  method FindRoots(sigma: Poly, support: seq<Byte>, f: Field, n: nat) returns (positions: seq<nat>)
    requires f.Sized()
    ensures positions == RootPositions(f, sigma, support, n)
  {
    positions := [];
    if |sigma| <= 1 || IsZero(sigma) {
      return;
    }
    var bound := Min(n, |support|);
    for i := 0 to bound
      invariant positions == Filter(Range(0, i), RootTest(f, sigma, support))
    {
      var x := support[i];
      var y1 := EvaluatePoly(sigma, x, f);
      var y2 := EvaluatePolyHorner(sigma, x, f);
      assert Range(0, i + 1)[..i] == Range(0, i);
      if y1 == 0 || y2 == 0 {
        positions := positions + [i];
      }
    }
  }

  // ---------------------------------------------------------------------------
  // run_patterson_algorithm
  // ---------------------------------------------------------------------------

  /** The fields of the decoder's `GoppaParams` that it reads. */
  datatype DecoderParams = DecoderParams(support: seq<Byte>, goppaPoly: Poly, field: Field, t: nat)

  /** The cap on the patterns each brute-force search checks. */
  const MaxPatterns: nat := 10000

  /** `calculate_syndrome(received ⊕ e, h)` is all zero. */
  predicate Corrects(received: seq<Byte>, e: seq<Byte>, h: Matrix)
    requires h.Valid()
  {
    IsZero(CalculateSyndrome(Xor(received, e), h))
  }

  /** A candidate for a received word of length n: a 0/1 vector of length n
      that passed the H-check. */
  predicate Verified(received: seq<Byte>, e: seq<Byte>, h: Matrix)
    requires h.Valid()
  {
    |e| == |received| && IsBinary(e) && Corrects(received, e, h)
  }

  /** `run_patterson_algorithm(received, h, params, w)` without its timing
      and memory metrics. An all-zero syndrome polynomial gives the zero
      vector; every other answer passed the H-check. The weight bound `w` is
      never checked: it only selects the single-error search. */
  method RunPatterson(received: seq<Byte>, h: Matrix, params: DecoderParams, w: nat) returns (r: Option<seq<Byte>>)
    requires params.field.Sized() && |params.goppaPoly| > 0 && h.Valid()
    requires Reaches(received, params.support, |received|)
    ensures IsZero(SyndromePoly(params.field, received, params.support, params.goppaPoly, |received|))
        ==> r == Some(Zeros(|received|))
    ensures !IsZero(SyndromePoly(params.field, received, params.support, params.goppaPoly, |received|)) && r.Some?
        ==> Verified(received, r.value, h)
  {
    var support, g, f, t := params.support, params.goppaPoly, params.field, params.t;
    var n := |received|;
    var syndrome := ComputeSyndromePolynomial(received, support, g, f, n);
    if IsZero(syndrome) {
      return Some(Zeros(n));
    }
    var extended := ExtendSyndrome(syndrome, f, t);
    var sigma := BerlekampMassey(extended, f, t);
    var positions := FindRoots(sigma, support, f, n);
    if |sigma| > 1 && !IsZero(sigma) {
      RootPositionsExact(f, sigma, support, n);
    }
    var e := MarkPositions(n, positions);
    if |positions| > 0 {
      var corrected := Xor(received, e);
      var check := CalculateSyndrome(corrected, h);
      if IsZero(check) {
        return Some(e);
      }
    }
    r := None;
    if t > 2 && |positions| > 0 && |positions| < t {
      var tried;
      r, tried := CompleteErrors(received, h, positions, t);
      if r.Some? {
        return;
      }
    }
    if t <= 4 {
      if w == 1 {
        r := SingleErrorSearch(received, h);
      } else if t == 2 {
        var tried;
        r, tried := PairSearch(received, h);
      } else if t == 3 || t == 4 {
        var tried;
        r, tried := CombinationSearch(received, h, t);
      }
    }
  }

  /** The completion search over `(0..n).combinations(t − |positions|)`: a
      combination touching a found position is skipped without being counted,
      at most `MaxPatterns` are checked, and an answer sets every found
      position plus the t − |positions| others of one combination. */
  method CompleteErrors(received: seq<Byte>, h: Matrix, positions: seq<nat>, t: nat)
    returns (r: Option<seq<Byte>>, tried: nat)
    requires h.Valid() && 0 < |positions| < t && AllBelow(positions, |received|)
    ensures tried <= MaxPatterns
    ensures r.Some? ==> Verified(received, r.value, h)
    ensures r.Some? ==> exists c | c in Combinations(Range(0, |received|), t - |positions|) ::
      (forall k | 0 <= k < |c| :: c[k] !in positions)
      && r.value == Indicator(|received|, Elems(positions) + Elems(c))
  {
    var n := |received|;
    var partial := MarkPositions(n, positions);
    var combos := Combinations(Range(0, n), t - |positions|);
    r, tried := None, 0;
    for idx := 0 to |combos|
      invariant tried <= MaxPatterns && r == None
    {
      if tried >= MaxPatterns {
        break;
      }
      var combo := combos[idx];
      if exists k | 0 <= k < |combo| :: combo[k] in positions {
        continue;
      }
      CombinationOfRange(n, t - |positions|, combo);
      var trial := SetOnes(partial, combo);
      assert trial == Indicator(n, Elems(positions) + Elems(combo));
      var corrected := Xor(received, trial);
      var check := CalculateSyndrome(corrected, h);
      if IsZero(check) {
        return Some(trial), tried;
      }
      tried := tried + 1;
    }
  }

  /** A completion sets exactly t positions: the found ones are distinct, and
      the combination is distinct and avoids them. */
  lemma CompletionWeight(n: nat, positions: seq<nat>, c: seq<nat>, t: nat)
    requires 0 < |positions| < t && AllBelow(positions, n) && Distinct(positions)
    requires c in Combinations(Range(0, n), t - |positions|)
    requires forall k | 0 <= k < |c| :: c[k] !in positions
    ensures CountOnes(Indicator(n, Elems(positions) + Elems(c))) == t
  {
    CombinationOfRange(n, t - |positions|, c);
    DistinctElems(positions);
    DistinctElems(c);
    assert Elems(positions) !! Elems(c);
    IndicatorWeight(n, Elems(positions) + Elems(c));
  }

  /** `w == 1`: every single-error pattern in turn. */
  method SingleErrorSearch(received: seq<Byte>, h: Matrix) returns (r: Option<seq<Byte>>)
    requires h.Valid()
    ensures r.Some? ==> Verified(received, r.value, h) && CountOnes(r.value) == 1
  {
    var n := |received|;
    for i := 0 to n
    {
      var trial := Zeros(n)[i := 1];
      assert trial == Indicator(n, {i});
      var corrected := Xor(received, trial);
      var check := CalculateSyndrome(corrected, h);
      if IsZero(check) {
        IndicatorWeight(n, {i});
        return Some(trial);
      }
    }
    return None;
  }

  /** t = 2: the pairs i < j. The cap breaks only the inner loop, so once it is
      reached every later inner loop stops at once. */
  method PairSearch(received: seq<Byte>, h: Matrix) returns (r: Option<seq<Byte>>, tried: nat)
    requires h.Valid()
    ensures tried <= MaxPatterns
    ensures r.Some? ==> Verified(received, r.value, h) && CountOnes(r.value) == 2
  {
    var n := |received|;
    tried := 0;
    for i := 0 to n
      invariant tried <= MaxPatterns
    {
      for j := i + 1 to n
        invariant tried <= MaxPatterns
      {
        if tried >= MaxPatterns {
          break;
        }
        var trial := Zeros(n)[i := 1][j := 1];
        assert trial == Indicator(n, {i, j});
        var corrected := Xor(received, trial);
        var check := CalculateSyndrome(corrected, h);
        if IsZero(check) {
          IndicatorWeight(n, {i, j});
          return Some(trial), tried;
        }
        tried := tried + 1;
      }
    }
    return None, tried;
  }

  /** t = 3 or 4: the t-subsets of `0..n` in combination order; the counter
      is bumped before the cap test, so fewer than `MaxPatterns` are checked. */
  method CombinationSearch(received: seq<Byte>, h: Matrix, t: nat) returns (r: Option<seq<Byte>>, tried: nat)
    requires h.Valid()
    ensures tried < MaxPatterns
    ensures r.Some? ==> Verified(received, r.value, h) && CountOnes(r.value) == t
  {
    var n := |received|;
    var combos := Combinations(Range(0, n), t);
    var count := 0;
    tried := 0;
    for idx := 0 to |combos|
      invariant count == tried < MaxPatterns
    {
      count := count + 1;
      if count >= MaxPatterns {
        break;
      }
      var combo := combos[idx];
      CombinationOfRange(n, t, combo);
      var trial := MarkPositions(n, combo);
      var corrected := Xor(received, trial);
      var check := CalculateSyndrome(corrected, h);
      tried := count;
      if IsZero(check) {
        MarkedWeight(n, combo);
        return Some(trial), tried;
      }
    }
    return None, tried;
  }
}
