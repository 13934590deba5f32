/** The free functions of `polynomial_utils`: polynomials over GF(2^m) as
    coefficient lists, lowest degree first, with `FieldMultiply` and `Inverse`
    from `FiniteField` for the coefficient arithmetic. The source updates `Vec`s
    in place; here each operation returns the updated list. */
module Polynomials {
  import opened Gf2
  import opened FiniteField

  /** A `Vec<u8>` of coefficients; index i holds the coefficient of x^i. */
  type Poly = seq<Byte>

  /** Coefficient i, reading 0 past the end. */
  function Coef(p: Poly, i: nat): Byte {
    if i < |p| then p[i] else 0
  }

  // ---------------------------------------------------------------------------
  // trim_polynomial
  // ---------------------------------------------------------------------------

  /** `trim_polynomial`: drop trailing zero coefficients while more than one is
      left. What survives is a prefix, everything dropped was 0, a non-empty list
      stays non-empty, and the last survivor is non-zero unless it is alone. */
  function Trim(p: Poly): (r: Poly)
    ensures |r| <= |p|
    ensures |p| > 0 ==> |r| > 0
    decreases |p|
  {
    if |p| > 1 && p[|p| - 1] == 0 then Trim(p[..|p| - 1]) else p
  }

  /** What survives is a prefix, everything dropped was 0, and the last survivor
      is non-zero unless it is alone. */
  lemma {:induction false} TrimShape(p: Poly)
    ensures Trim(p) == p[..|Trim(p)|]
    ensures |Trim(p)| > 1 ==> Trim(p)[|Trim(p)| - 1] != 0
    ensures forall i | |Trim(p)| <= i < |p| :: p[i] == 0
    decreases |p|
  {
    if |p| > 1 && p[|p| - 1] == 0 {
      var q := p[..|p| - 1];
      TrimShape(q);
      assert Trim(p) == Trim(q);
      assert q[..|Trim(q)|] == p[..|Trim(q)|];
    }
  }

  method TrimPolynomial(poly: Poly) returns (r: Poly)
    ensures r == Trim(poly)
  {
    r := poly;
    while |r| > 1 && r[|r| - 1] == 0
      invariant Trim(r) == Trim(poly)
      decreases |r|
    {
      r := r[..|r| - 1];
    }
  }

  /** The facts of `Trim`'s contract and of `TrimShape` determine it: any list
      with them is the trimmed one. */
  lemma {:induction false} TrimUnique(p: Poly, r: Poly)
    requires |r| <= |p| && r == p[..|r|]
    requires |p| > 0 ==> |r| > 0
    requires |r| > 1 ==> r[|r| - 1] != 0
    requires forall i | |r| <= i < |p| :: p[i] == 0
    ensures r == Trim(p)
    decreases |p|
  {
    if |p| > 1 && p[|p| - 1] == 0 {
      assert |r| < |p|;
      TrimUnique(p[..|p| - 1], r);
    }
  }

  /** Trimming twice is trimming once. */
  lemma TrimIdempotent(p: Poly)
    ensures Trim(Trim(p)) == Trim(p)
  {
    var r := Trim(p);
    TrimShape(p);
    TrimUnique(r, r);
  }

  /** An all-zero list trims to the single coefficient 0 (or stays empty). */
  lemma TrimZeros(n: nat)
    ensures Trim(Zeros(n)) == if n == 0 then [] else [0]
  {
    if n > 0 {
      TrimUnique(Zeros(n), [0]);
    }
  }

  /** A divisor that is not all zero keeps a non-zero leading coefficient. */
  lemma TrimLeadNonZero(b: Poly)
    requires |b| > 0 && !IsZero(b)
    ensures Trim(b)[|Trim(b)| - 1] != 0
  {
    var r := Trim(b);
    TrimShape(b);
    if |r| == 1 && r[0] == 0 {
      assert IsZero(b) by {
        forall i | 0 <= i < |b|
          ensures b[i] == 0
        {
          if i == 0 {
            assert b[0] == r[0];
          }
        }
      }
      assert false;
    }
  }

  // ---------------------------------------------------------------------------
  // polynomial_add
  // ---------------------------------------------------------------------------

  /** Coefficient-wise XOR over the longer length. */
  function XorPad(a: Poly, b: Poly): Poly {
    seq(Max(|a|, |b|), i requires 0 <= i => Coef(a, i) ^ Coef(b, i))
  }

  /** `polynomial_add(a, b)`: the value `a` holds afterwards. */
  function PolyAdd(a: Poly, b: Poly): Poly {
    Trim(XorPad(a, b))
  }

  method PolynomialAdd(a: Poly, b: Poly) returns (r: Poly)
    ensures r == PolyAdd(a, b)
  {
    r := a;
    if |r| < |b| {
      r := r + Zeros(|b| - |r|);
    }
    for i := 0 to |b|
      invariant |r| == Max(|a|, |b|)
      invariant forall k | 0 <= k < |r| :: r[k] == if k < i then Coef(a, k) ^ b[k] else Coef(a, k)
    {
      r := r[i := r[i] ^ b[i]];
    }
    assert r == XorPad(a, b);
    r := TrimPolynomial(r);
  }

  /** Coefficient i of a sum is the XOR of the operands' coefficients, for every
      i below the trimmed length; all coefficients beyond it XOR to 0. */
  lemma PolyAddCoefficients(a: Poly, b: Poly)
    ensures |PolyAdd(a, b)| <= Max(|a|, |b|)
    ensures forall i | 0 <= i < |PolyAdd(a, b)| :: PolyAdd(a, b)[i] == Coef(a, i) ^ Coef(b, i)
    ensures forall i | |PolyAdd(a, b)| <= i < Max(|a|, |b|) :: Coef(a, i) == Coef(b, i)
  {
    var x := XorPad(a, b);
    TrimShape(x);
    forall i | |PolyAdd(a, b)| <= i < Max(|a|, |b|)
      ensures Coef(a, i) == Coef(b, i)
    {
      assert x[i] == 0;
      assert Coef(a, i) ^ Coef(b, i) == 0;
    }
  }

  lemma PolyAddCommutes(a: Poly, b: Poly)
    ensures PolyAdd(a, b) == PolyAdd(b, a)
  {
    assert XorPad(a, b) == XorPad(b, a);
  }

  /** Adding a polynomial to itself cancels every coefficient. */
  lemma PolyAddSelf(a: Poly)
    ensures PolyAdd(a, a) == if |a| == 0 then [] else [0]
  {
    assert XorPad(a, a) == Zeros(|a|);
    TrimZeros(|a|);
  }

  /** Adding the empty polynomial only trims. */
  lemma PolyAddEmpty(a: Poly)
    ensures PolyAdd(a, []) == Trim(a)
  {
    assert XorPad(a, []) == a;
  }

  // ---------------------------------------------------------------------------
  // polynomial_multiply
  // ---------------------------------------------------------------------------

  /** The product `a[i]·b[k-i]` that row i adds to coefficient k, 0 when row i
      does not reach coefficient k. */
  function Term(f: Field, a: Poly, b: Poly, i: nat, k: nat): Byte
    requires f.Sized()
  {
    if i < |a| && i <= k && k - i < |b| then Mul(f, a[i], b[k - i]) else 0
  }

  /** The XOR of the terms that rows 0..i add to coefficient k. */
  function Conv(f: Field, a: Poly, b: Poly, i: nat, k: nat): Byte
    requires f.Sized()
  {
    if i == 0 then 0 else Conv(f, a, b, i - 1, k) ^ Term(f, a, b, i - 1, k)
  }

  /** `result` before trimming: coefficient k is the XOR over i + j = k of
      `field_multiply(a[i], b[j])`, and there are `deg a + deg b + 1` of them. */
  function Product(f: Field, a: Poly, b: Poly): (r: Poly)
    requires f.Sized() && |a| > 0 && |b| > 0
  {
    seq(|a| + |b| - 1, k requires 0 <= k => Conv(f, a, b, |a|, k))
  }

  /** `polynomial_multiply(a, b)`. */
  function PolyMul(f: Field, a: Poly, b: Poly): (r: Poly)
    requires f.Sized()
    ensures r == [] <==> |a| == 0 || |b| == 0
    ensures |a| > 0 && |b| > 0 ==> |r| <= |a| + |b| - 1
  {
    if |a| == 0 || |b| == 0 then [] else Trim(Product(f, a, b))
  }

  method PolynomialMultiply(a: Poly, b: Poly, f: Field) returns (r: Poly)
    requires f.Sized()
    ensures r == PolyMul(f, a, b)
  {
    if |a| == 0 || |b| == 0 {
      return [];
    }
    var result := Zeros(|a| + |b| - 1);
    for i := 0 to |a|
      invariant |result| == |a| + |b| - 1
      invariant forall k | 0 <= k < |result| :: result[k] == Conv(f, a, b, i, k)
    {
      for j := 0 to |b|
        invariant |result| == |a| + |b| - 1
        invariant forall k | 0 <= k < |result| ::
          result[k] == if i <= k < i + j then Conv(f, a, b, i, k) ^ Term(f, a, b, i, k) else Conv(f, a, b, i, k)
      {
        var product := FieldMultiply(f, a[i], b[j]);
        assert product == Term(f, a, b, i, i + j);
        result := result[i + j := result[i + j] ^ product];
      }
      assert forall k | 0 <= k < |result| && !(i <= k < i + |b|) :: Term(f, a, b, i, k) == 0;
    }
    assert result == Product(f, a, b);
    r := TrimPolynomial(result);
  }

  /** Only row k reaches coefficient k when `b` is the constant 1, and it adds `a[k]`. */
  lemma {:induction false} ConvByOne(f: Field, a: Poly, i: nat, k: nat)
    requires f.Sized() && k < |a| && i <= |a|
    ensures Conv(f, a, [1], i, k) == if k < i then a[k] else 0
  {
    if i > 0 {
      ConvByOne(f, a, i - 1, k);
      if i - 1 == k {
        MulOne(f, a[k]);
        assert Term(f, a, [1], i - 1, k) == a[k];
      } else {
        assert Term(f, a, [1], i - 1, k) == 0;
      }
    }
  }

  /** Multiplying by the constant polynomial 1 only trims. */
  lemma PolyMulByOne(f: Field, a: Poly)
    requires f.Sized()
    ensures PolyMul(f, a, [1]) == Trim(a)
  {
    if |a| > 0 {
      forall k | 0 <= k < |a|
        ensures Product(f, a, [1])[k] == a[k]
      {
        ConvByOne(f, a, |a|, k);
      }
      assert Product(f, a, [1]) == a;
    }
  }

  /** With an all-zero `b` every term vanishes. */
  lemma {:induction false} ConvByZero(f: Field, a: Poly, b: Poly, i: nat, k: nat)
    requires f.Sized() && IsZero(b)
    ensures Conv(f, a, b, i, k) == 0
  {
    if i > 0 {
      ConvByZero(f, a, b, i - 1, k);
      assert Term(f, a, b, i - 1, k) == 0;
    }
  }

  /** Multiplying by an all-zero polynomial gives the single coefficient 0. */
  lemma PolyMulByZero(f: Field, a: Poly, b: Poly)
    requires f.Sized() && |a| > 0 && |b| > 0 && IsZero(b)
    ensures PolyMul(f, a, b) == [0]
  {
    forall k | 0 <= k < |a| + |b| - 1
      ensures Product(f, a, b)[k] == 0
    {
      ConvByZero(f, a, b, |a|, k);
    }
    assert Product(f, a, b) == Zeros(|a| + |b| - 1);
    TrimZeros(|a| + |b| - 1);
  }

  // ---------------------------------------------------------------------------
  // polynomial_divide and polynomial_mod
  // ---------------------------------------------------------------------------

  /** The `(quotient, remainder)` pair `polynomial_divide` returns. */
  datatype Division = Division(quotient: Poly, remainder: Poly)

  /** A divisor `polynomial_divide` accepts: non-empty and not all zero. */
  predicate NonZeroPoly(b: Poly) {
    |b| > 0 && !IsZero(b)
  }

  /** The inner loop after its first n values of j: `a_copy[j + i] ^=
      field_multiply(coef, b_copy[j])` where `j + i` is in range. */
  function Eliminate(f: Field, rem: Poly, bc: Poly, i: nat, coef: Byte, n: nat): (r: Poly)
    requires f.Sized() && n <= |bc|
  {
    seq(|rem|, k requires 0 <= k < |rem| => if i <= k < i + n then rem[k] ^ Mul(f, coef, bc[k - i]) else rem[k])
  }

  /** One value of i in the outer loop: skipped when `a_copy` is too short,
      otherwise `coef` goes to `quotient[i]` and `coef · b_copy` is subtracted at
      offset i. */
  function DivRound(f: Field, d: Division, bc: Poly, inv: Byte, i: nat): (r: Division)
    requires f.Sized() && |bc| > 0 && i < |d.quotient|
    ensures |r.quotient| == |d.quotient| && |r.remainder| == |d.remainder|
  {
    var degB := |bc| - 1;
    if |d.remainder| <= i + degB then d
    else
      var coef := Mul(f, d.remainder[i + degB], inv);
      Division(d.quotient[i := coef], Eliminate(f, d.remainder, bc, i, coef, |bc|))
  }

  /** The outer loop over the rounds i - 1, i - 2, ..., 0. */
  function DivRounds(f: Field, d: Division, bc: Poly, inv: Byte, i: nat): (r: Division)
    requires f.Sized() && |bc| > 0 && i <= |d.quotient|
    ensures |r.quotient| == |d.quotient| && |r.remainder| == |d.remainder|
    decreases i
  {
    if i == 0 then d else DivRounds(f, DivRound(f, d, bc, inv, i - 1), bc, inv, i - 1)
  }

  /** `polynomial_divide(a, b)`: it panics on an empty or all-zero divisor and on
      an empty dividend. A dividend of lower degree than the trimmed divisor comes
      back untouched with an empty quotient; otherwise the quotient has
      `deg a - deg b + 1` coefficients and the remainder is trimmed and no longer
      than `a`. */
  function PolyDivide(f: Field, a: Poly, b: Poly): (d: Division)
    requires f.Sized() && NonZeroPoly(b) && |a| > 0
    ensures |a| < |Trim(b)| ==> d == Division([], a)
    ensures |a| >= |Trim(b)| ==> |d.quotient| == |a| - |Trim(b)| + 1
    ensures |a| >= |Trim(b)| ==> Trim(d.remainder) == d.remainder && 0 < |d.remainder| <= |a|
  {
    var bc := Trim(b);
    var degA := |a| - 1;
    var degB := |bc| - 1;
    if degA < degB then Division([], a)
    else
      TrimLeadNonZero(b);
      DivideAll(f, a, bc, Inv(f, bc[degB]))
  }

  /** All rounds from a zero quotient, then the trim of the remainder. */
  function DivideAll(f: Field, a: Poly, bc: Poly, inv: Byte): (d: Division)
    requires f.Sized() && 0 < |bc| <= |a|
    ensures |d.quotient| == |a| - |bc| + 1
    ensures Trim(d.remainder) == d.remainder && 0 < |d.remainder| <= |a|
  {
    var rounds := |a| - |bc| + 1;
    var d := DivRounds(f, Division(Zeros(rounds), a), bc, inv, rounds);
    TrimIdempotent(d.remainder);
    Division(d.quotient, Trim(d.remainder))
  }

  method PolynomialDivide(a: Poly, b: Poly, f: Field) returns (d: Division)
    requires f.Sized() && NonZeroPoly(b) && |a| > 0
    ensures d == PolyDivide(f, a, b)
  {
    var bCopy := TrimPolynomial(b);
    var aCopy := a;
    var degA := |aCopy| - 1;
    var degB := |bCopy| - 1;
    if degA < degB {
      return Division([], aCopy);
    }
    var quotient := Zeros(degA - degB + 1);
    TrimLeadNonZero(b);
    var bLeadingInv := Inverse(f, bCopy[degB]);
    quotient, aCopy := DivideLoop(f, quotient, aCopy, bCopy, bLeadingInv);
    ghost var rounds: nat := |a| - |bCopy| + 1;
    var remainder := TrimPolynomial(aCopy);
    d := Division(quotient, remainder);
    DivideAllOf(f, a, bCopy, bLeadingInv, Division(Zeros(rounds), a), rounds, Division(quotient, aCopy));
  }

  /** The outer loop of `polynomial_divide`, `for i in (0..=deg_a - deg_b).rev()`. */
  method DivideLoop(f: Field, q0: Poly, a0: Poly, bCopy: Poly, inv: Byte) returns (quotient: Poly, aCopy: Poly)
    requires f.Sized() && 0 < |bCopy| <= |a0| && |q0| == |a0| - |bCopy| + 1
    ensures Division(quotient, aCopy) == DivRounds(f, Division(q0, a0), bCopy, inv, |q0|)
  {
    quotient, aCopy := q0, a0;
    var degB := |bCopy| - 1;
    var i: nat := |q0|;
    while i > 0
      invariant i <= |q0| && |quotient| == |q0| && |aCopy| == |a0|
      invariant DivRounds(f, Division(quotient, aCopy), bCopy, inv, i) == DivRounds(f, Division(q0, a0), bCopy, inv, |q0|)
    {
      ghost var before := Division(quotient, aCopy);
      i := i - 1;
      DivRoundsStep(f, before, bCopy, inv, i);
      if |aCopy| <= i + degB {
        // never taken: `a_copy` keeps its deg a + 1 coefficients
        assert false;
        continue;
      }
      var coef := FieldMultiply(f, aCopy[i + degB], inv);
      quotient := quotient[i := coef];
      aCopy := EliminateRow(f, aCopy, bCopy, i, coef);
      DivRoundTaken(f, before, bCopy, inv, i, coef, aCopy);
    }
    assert DivRounds(f, Division(quotient, aCopy), bCopy, inv, 0) == Division(quotient, aCopy);
  }

  /** A round that is not skipped stores `coef` and eliminates with it. */
  lemma DivRoundTaken(f: Field, d: Division, bc: Poly, inv: Byte, i: nat, coef: Byte, rem: Poly)
    requires f.Sized() && |bc| > 0 && i < |d.quotient| && i + |bc| - 1 < |d.remainder|
    requires coef == Mul(f, d.remainder[i + |bc| - 1], inv) && rem == Eliminate(f, d.remainder, bc, i, coef, |bc|)
    ensures DivRound(f, d, bc, inv, i) == Division(d.quotient[i := coef], rem)
  {
  }

  lemma DivideAllOf(f: Field, a: Poly, bc: Poly, inv: Byte, start: Division, rounds: nat, d: Division)
    requires f.Sized() && 0 < |bc| <= |a| && rounds == |a| - |bc| + 1 && start == Division(Zeros(rounds), a)
    requires d == DivRounds(f, start, bc, inv, rounds)
    ensures DivideAll(f, a, bc, inv) == Division(d.quotient, Trim(d.remainder))
  {
  }

  /** One round comes off the front of the remaining ones. */
  lemma DivRoundsStep(f: Field, d: Division, bc: Poly, inv: Byte, i: nat)
    requires f.Sized() && |bc| > 0 && i < |d.quotient|
    ensures DivRounds(f, d, bc, inv, i + 1) == DivRounds(f, DivRound(f, d, bc, inv, i), bc, inv, i)
  {
  }

  /** The inner `for j in 0..=deg_b` loop of `polynomial_divide`. */
  method EliminateRow(f: Field, rem: Poly, bc: Poly, i: nat, coef: Byte) returns (r: Poly)
    requires f.Sized()
    ensures r == Eliminate(f, rem, bc, i, coef, |bc|)
  {
    r := rem;
    for j := 0 to |bc|
      invariant r == Eliminate(f, rem, bc, i, coef, j)
    {
      if j + i < |r| {
        var p := FieldMultiply(f, coef, bc[j]);
        r := r[j + i := r[j + i] ^ p];
      }
    }
  }

  /** `polynomial_mod(a, m)`: the value `a` holds afterwards. It is untouched when
      shorter than the modulus, and otherwise replaced by the trimmed remainder. */
  function PolyMod(f: Field, a: Poly, m: Poly): (r: Poly)
    requires f.Sized() && (|a| >= |m| ==> NonZeroPoly(m))
    ensures |r| <= |a|
    ensures |a| >= |m| ==> Trim(r) == r && |r| > 0
  {
    if |a| < |m| then a else PolyDivide(f, a, m).remainder
  }

  method PolynomialMod(a: Poly, m: Poly, f: Field) returns (r: Poly)
    requires f.Sized() && (|a| >= |m| ==> NonZeroPoly(m))
    ensures r == PolyMod(f, a, m)
  {
    r := a;
    if |r| < |m| {
      return;
    }
    var d := PolynomialDivide(r, m, f);
    r := d.remainder;
  }

  // ---------------------------------------------------------------------------
  // evaluate_poly
  // ---------------------------------------------------------------------------

  /** Horner evaluation from the top coefficient down. */
  function Horner(f: Field, p: Poly, x: Byte): Byte
    requires f.Sized() && |p| > 0
    decreases |p|
  {
    if |p| == 1 then p[0] else FieldAdd(Mul(f, Horner(f, p[1..], x), x), p[0])
  }

  /** `evaluate_poly(p, x)`: at 0 the constant coefficient (0 for an empty list),
      elsewhere Horner; an empty list at a non-zero point panics. */
  function Eval(f: Field, p: Poly, x: Byte): Byte
    requires f.Sized() && (x == 0 || |p| > 0)
  {
    if x == 0 then Coef(p, 0) else Horner(f, p, x)
  }

  method EvaluatePoly(p: Poly, x: Byte, f: Field) returns (y: Byte)
    requires f.Sized() && (x == 0 || |p| > 0)
    ensures y == Eval(f, p, x)
  {
    if x == 0 {
      return if |p| > 0 then p[0] else 0;
    }
    y := p[|p| - 1];
    var i := |p| - 1;
    while i > 0
      invariant 0 <= i < |p| && y == Horner(f, p[i..], x)
    {
      i := i - 1;
      var t := FieldMultiply(f, y, x);
      assert p[i..][1..] == p[i + 1..];
      y := FieldAdd(t, p[i]);
    }
    assert p[0..] == p;
  }

  /** The `x == 0` shortcut agrees with Horner evaluation at 0. */
  lemma HornerAtZero(f: Field, p: Poly)
    requires f.Sized() && |p| > 0
    ensures Horner(f, p, 0) == Eval(f, p, 0) == p[0]
  {
  }

  /** A zero top coefficient does not change the value. */
  lemma {:induction false} HornerTrailingZero(f: Field, p: Poly, x: Byte)
    requires f.Sized() && |p| > 0
    ensures Horner(f, p + [0], x) == Horner(f, p, x)
    decreases |p|
  {
    if |p| == 1 {
      assert (p + [0])[1..] == [0];
    } else {
      assert (p + [0])[1..] == p[1..] + [0];
      HornerTrailingZero(f, p[1..], x);
    }
  }

  /** Trimming does not change the value at any point. */
  lemma {:induction false} EvalTrim(f: Field, p: Poly, x: Byte)
    requires f.Sized() && (x == 0 || |p| > 0)
    ensures Eval(f, Trim(p), x) == Eval(f, p, x)
    decreases |p|
  {
    if |p| > 1 && p[|p| - 1] == 0 {
      var q := p[..|p| - 1];
      EvalTrim(f, q, x);
      assert Trim(p) == Trim(q);
      if x != 0 {
        assert q + [0] == p;
        HornerTrailingZero(f, q, x);
      }
    }
  }

  /** The zero polynomial vanishes everywhere. */
  lemma {:induction false} EvalZero(f: Field, p: Poly, x: Byte)
    requires f.Sized() && (x == 0 || |p| > 0) && IsZero(p)
    ensures Eval(f, p, x) == 0
    decreases |p|
  {
    if x != 0 && |p| > 1 {
      EvalZero(f, p[1..], x);
      assert Horner(f, p, x) == FieldAdd(Mul(f, Horner(f, p[1..], x), x), p[0]);
    }
  }

  // ---------------------------------------------------------------------------
  // random_irreducible_poly
  // ---------------------------------------------------------------------------

  /** The polynomial built from t coefficient draws: monic of degree t, lower
      coefficients the draws, a zero constant term replaced by 1. */
  function MonicFromDraws(t: nat, draws: seq<Byte>): (p: Poly)
    requires |draws| == t
    ensures |p| == t + 1 && p[t] == 1 && p[0] != 0
    ensures forall i | 0 < i < t :: p[i] == draws[i]
    ensures t > 0 ==> p[0] == if draws[0] == 0 then 1 else draws[0]
  {
    seq(t + 1, i requires 0 <= i <= t =>
      if i == t then 1 else if i == 0 && draws[0] == 0 then 1 else draws[i])
  }

  /** `random_irreducible_poly(t)` with the `t` values `gen_range(0..2^m)` returned
      passed in as `draws`: a monic polynomial of degree t whose lower
      coefficients are the draws, with a zero constant term replaced by 1. Nothing
      is checked for irreducibility. */
  method RandomIrreduciblePoly(t: nat, f: Field, draws: seq<Byte>) returns (poly: Poly)
    requires f.Sized() && |draws| == t && forall i | 0 <= i < t :: draws[i] as int < FieldSize(f)
    ensures |poly| == t + 1 && poly[t] == 1 && poly[0] != 0
    ensures forall i | 0 < i < t :: poly[i] == draws[i]
    ensures t > 0 ==> poly[0] == if draws[0] == 0 then 1 else draws[0]
    ensures forall i | 0 <= i <= t :: poly[i] as int < FieldSize(f)
    ensures poly == MonicFromDraws(t, draws)
  {
    poly := Zeros(t + 1);
    poly := poly[t := 1];
    for i := 0 to t
      invariant |poly| == t + 1 && poly[t] == 1
      invariant forall k | 0 <= k < t :: poly[k] == if k < i then draws[k] else 0
    {
      poly := poly[i := draws[i]];
    }
    if poly[0] == 0 {
      poly := poly[0 := 1];
    }
    assert forall i | 0 <= i <= t :: poly[i] == MonicFromDraws(t, draws)[i];
  }
}
