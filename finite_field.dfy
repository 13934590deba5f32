/** The methods of `FiniteField`: GF(2^m) elements held in a `u8`, bit
    polynomials in a `u16`, and the random support. Everything models the loops as they are written: `FieldMultiply` tests bit m
    before shifting and `BitPolyMod` stops as soon as the remainder is numerically
    below the divisor, so neither is the textbook field operation. The lemmas
    state structural facts (zero handling, termination, lengths, bounds). */
module FiniteField {
  import opened Gf2

  // ---------------------------------------------------------------------------
  // The field descriptor
  // ---------------------------------------------------------------------------

  /** `FiniteField { m, poly }`: the extension degree and the reduction polynomial. */
  datatype Field = Field(m: bv16, poly: bv16) {
    /** The degree is in the supported range; the operations need no more. */
    predicate Sized() {
      2 <= m <= 8
    }

    /** A field as `new` builds it. */
    predicate Valid() {
      Sized() && poly == ReductionPoly(m)
    }
  }

  /** The fixed table of reduction polynomials. */
  function ReductionPoly(m: bv16): bv16
    requires 2 <= m <= 8
  {
    if m == 2 then 0x7
    else if m == 3 then 0xB
    else if m == 4 then 0x13
    else if m == 5 then 0x25
    else if m == 6 then 0x43
    else if m == 7 then 0x89
    else 0x11D
  }

  /** `FiniteField::new`: asserts `1 < m <= 8`. The chosen polynomial has degree
      exactly m and a constant term 1. */
  function NewField(m: bv16): (f: Field)
    requires 2 <= m <= 8
    ensures f.Valid() && f.m == m
    ensures Shr(f.poly, m) == 1 && f.poly & 1 == 1
  {
    Field(m, ReductionPoly(m))
  }

  /** The number of field elements, `1 << m`. */
  function FieldSize(f: Field): (n: nat)
    requires f.Sized()
    ensures 4 <= n <= 256
  {
    if f.m == 2 then 4
    else if f.m == 3 then 8
    else if f.m == 4 then 16
    else if f.m == 5 then 32
    else if f.m == 6 then 64
    else if f.m == 7 then 128
    else 256
  }

  /** `get_m() as usize`. */
  function Degree(f: Field): (m: nat)
    requires f.Sized()
    ensures 2 <= m <= 8
  {
    if f.m == 2 then 2
    else if f.m == 3 then 3
    else if f.m == 4 then 4
    else if f.m == 5 then 5
    else if f.m == 6 then 6
    else if f.m == 7 then 7
    else 8
  }

  /** `FiniteField::new(m)` for a degree given as a number. */
  function FieldOfDegree(m: nat): (f: Field)
    requires 2 <= m <= 8
    ensures f.Valid() && Degree(f) == m && FieldSize(f) == Pow2(m)
  {
    if m == 2 then NewField(2)
    else if m == 3 then NewField(3)
    else if m == 4 then NewField(4)
    else if m == 5 then NewField(5)
    else if m == 6 then NewField(6)
    else if m == 7 then NewField(7)
    else NewField(8)
  }

  /** `field_add`: addition is XOR, so it is its own inverse. */
  function FieldAdd(a: Byte, b: Byte): (r: Byte)
    ensures r ^ b == a && r ^ a == b
  {
    a ^ b
  }

  // ---------------------------------------------------------------------------
  // field_multiply
  // ---------------------------------------------------------------------------

  /** `x << k` for a computed shift amount. */
  function Shl(x: bv16, k: bv16): bv16
    requires k <= 16
  {
    x << k
  }

  /** `x >> k` for a computed shift amount. */
  function Shr(x: bv16, k: bv16): bv16
    requires k <= 16
  {
    x >> k
  }

  /** `(1 << (m + 1)) - 1`: the mask applied to `a_temp` after every step. */
  function Mask(f: Field): bv16
    requires f.Sized()
  {
    Shl(1, f.m + 1) - 1
  }

  /** One update of `a_temp`: remember bit m, shift, XOR the polynomial if that bit
      was set, then mask to m + 1 bits. */
  function MulStep(f: Field, aTemp: bv16): bv16
    requires f.Sized()
  {
    var highestBitSet := aTemp & Shl(1, f.m) != 0;
    var shifted := aTemp << 1;
    var reduced := if highestBitSet then shifted ^ f.poly else shifted;
    reduced & Mask(f)
  }

  /** The `while b_temp > 0` loop of `field_multiply`, one iteration per bit of `b_temp`. */
  function MulLoop(f: Field, result: bv16, aTemp: bv16, bTemp: bv16): bv16
    requires f.Sized()
    decreases bTemp
  {
    if bTemp == 0 then result
    else MulLoop(f, Accumulate(result, aTemp, bTemp), MulStep(f, aTemp), bTemp >> 1)
  }

  /** `if b_temp & 1 == 1 { result ^= a_temp }`. */
  function Accumulate(result: bv16, aTemp: bv16, bTemp: bv16): bv16 {
    if bTemp & 1 == 1 then result ^ aTemp else result
  }

  /** `result as u8`. */
  function Low8(x: bv16): Byte {
    (x & 0xFF) as Byte
  }

  /** `field_multiply(a, b)`. */
  function Mul(f: Field, a: Byte, b: Byte): Byte
    requires f.Sized()
  {
    if a == 0 || b == 0 then 0 else Low8(MulLoop(f, 0, a as bv16, b as bv16))
  }

  method FieldMultiply(f: Field, a: Byte, b: Byte) returns (r: Byte)
    requires f.Sized()
    ensures r == Mul(f, a, b)
    ensures a == 0 || b == 0 ==> r == 0
  {
    if a == 0 || b == 0 {
      return 0;
    }
    var result: bv16 := 0;
    var aTemp: bv16 := a as bv16;
    var bTemp: bv16 := b as bv16;
    while bTemp > 0
      invariant MulLoop(f, result, aTemp, bTemp) == MulLoop(f, 0, a as bv16, b as bv16)
      decreases bTemp
    {
      HalfSmaller(bTemp);
      result := Accumulate(result, aTemp, bTemp);
      aTemp := MulStep(f, aTemp);
      bTemp := bTemp >> 1;
    }
    r := Low8(result);
  }

  /** `x` has no bits above bit m. */
  predicate Masked(f: Field, x: bv16)
    requires f.Sized()
  {
    x & Mask(f) == x
  }

  lemma MulStepMasked(f: Field, aTemp: bv16)
    requires f.Sized()
    ensures Masked(f, MulStep(f, aTemp))
  {
    MaskIdempotent(MulStep(f, aTemp) , Mask(f));
  }

  lemma MaskIdempotent(x: bv16, k: bv16)
    ensures (x & k) & k == x & k
  {
  }

  lemma AccumulateMasked(f: Field, x: bv16, y: bv16, bTemp: bv16)
    requires f.Sized() && Masked(f, x) && Masked(f, y)
    ensures Masked(f, Accumulate(x, y, bTemp))
  {
    AccumulateMaskedBits(Mask(f), x, y, bTemp);
  }

  lemma AccumulateMaskedBits(k: bv16, x: bv16, y: bv16, bTemp: bv16)
    requires x & k == x && y & k == y
    ensures Accumulate(x, y, bTemp) & k == Accumulate(x, y, bTemp)
  {
    if bTemp & 1 == 1 {
      XorMasked(k, x, y);
      assert Accumulate(x, y, bTemp) == x ^ y;
    } else {
      assert Accumulate(x, y, bTemp) == x;
    }
  }

  lemma XorMasked(k: bv16, x: bv16, y: bv16)
    requires x & k == x && y & k == y
    ensures (x ^ y) & k == x ^ y
  {
  }

  lemma HalfSmaller(x: bv16)
    requires x != 0
    ensures x >> 1 < x
  {
  }

  lemma {:induction false} MulLoopMasked(f: Field, result: bv16, aTemp: bv16, bTemp: bv16)
    requires f.Sized() && Masked(f, result) && Masked(f, aTemp)
    ensures Masked(f, MulLoop(f, result, aTemp, bTemp))
    decreases bTemp
  {
    if bTemp != 0 {
      var result' := Accumulate(result, aTemp, bTemp);
      MulStepMasked(f, aTemp);
      AccumulateMasked(f, result, aTemp, bTemp);
      HalfSmaller(bTemp);
      MulLoopMasked(f, result', MulStep(f, aTemp), bTemp >> 1);
      assert MulLoop(f, result, aTemp, bTemp) == MulLoop(f, result', MulStep(f, aTemp), bTemp >> 1);
    } else {
      assert MulLoop(f, result, aTemp, bTemp) == result;
    }
  }

  /** Operands below 2^(m+1) give a product below 2^(m+1): the mask bounds `a_temp`. */
  lemma MulBound(f: Field, a: Byte, b: Byte)
    requires f.Sized() && (a as bv16) < Shl(1, f.m + 1)
    ensures (Mul(f, a, b) as bv16) < Shl(1, f.m + 1)
  {
    if a != 0 && b != 0 {
      BelowMask(f, a as bv16);
      MulLoopMasked(f, 0, a as bv16, b as bv16);
      var r := MulLoop(f, 0, a as bv16, b as bv16);
      BelowMask(f, r);
      LowBelow(r, Shl(1, f.m + 1));
    }
  }

  /** `Mask(f)` keeps exactly the values below 2^(m+1). */
  lemma BelowMask(f: Field, x: bv16)
    requires f.Sized()
    ensures Masked(f, x) == (x < Shl(1, f.m + 1))
  {
    BelowMaskBits(f, x);
  }

  lemma BelowMaskBits(f: Field, x: bv16)
    requires 2 <= f.m <= 8
    ensures (x & ((1 << (f.m + 1)) - 1) == x) == (x < (1 << (f.m + 1)))
  {
  }

  lemma LowBelow(x: bv16, p: bv16)
    requires x < p
    ensures (Low8(x) as bv16) < p
  {
  }

  /** Multiplying by 1 returns the other operand unchanged. */
  lemma MulOne(f: Field, a: Byte)
    requires f.Sized()
    ensures Mul(f, a, 1) == a
  {
    if a != 0 {
      assert MulLoop(f, 0, a as bv16, 1) == MulLoop(f, a as bv16, MulStep(f, a as bv16), 0);
    }
  }

  /** The product need not be a field element: in GF(8), x * x^2 comes out as 8,
      because bit m is tested before the shift rather than after it. */
  lemma MulLeavesField()
    ensures Mul(NewField(3), 2, 4) == 8 && 8 >= FieldSize(NewField(3))
  {
    var f := NewField(3);
    assert MulStep(f, 2) == 4;
    assert MulStep(f, 4) == 8;
    assert MulLoop(f, 0, 2, 4) == MulLoop(f, 0, 4, 2);
    assert MulLoop(f, 0, 4, 2) == MulLoop(f, 0, 8, 1);
    assert MulLoop(f, 0, 8, 1) == MulLoop(f, 8, MulStep(f, 8), 0);
  }

  // ---------------------------------------------------------------------------
  // Degrees of bit polynomials
  // ---------------------------------------------------------------------------

  /** The true degree of a non-zero bit polynomial: the position of its highest
      set bit (0 for zero). */
  function Deg(x: bv16): (d: bv16)
    ensures d <= 15
  {
    if x >= 0x8000 then 15 else if x >= 0x4000 then 14
    else if x >= 0x2000 then 13 else if x >= 0x1000 then 12
    else if x >= 0x800 then 11 else if x >= 0x400 then 10
    else if x >= 0x200 then 9 else if x >= 0x100 then 8
    else if x >= 0x80 then 7 else if x >= 0x40 then 6
    else if x >= 0x20 then 5 else if x >= 0x10 then 4
    else if x >= 0x8 then 3 else if x >= 0x4 then 2
    else if x >= 0x2 then 1 else 0
  }

  /** `u16::leading_zeros`: 16 for zero, otherwise the bits above the highest one. */
  function LeadingZeros(x: bv16): (z: bv16)
    ensures z <= 16
  {
    if x == 0 then 16 else 15 - Deg(x)
  }

  /** `31 - x.leading_zeros()`: the degree as the source computes it. */
  function SourceDeg(x: bv16): bv16 {
    31 - LeadingZeros(x)
  }

  /** A non-zero `x` has bit `Deg(x)` set and nothing above it. */
  lemma DegTop(x: bv16)
    requires x != 0
    ensures Deg(x) <= 15 && Shr(x, Deg(x)) == 1
  {
    DegTopBits(x);
  }

  lemma DegTopBits(x: bv16)
    requires x != 0
    ensures x >> Deg(x) == 1
  {
  }

  /** The degree offset: `31 - leading_zeros` is the true degree plus 16 for a
      non-zero `x`, and 15 for zero, so it is never 0 and differences of two such
      degrees are differences of true degrees. */
  lemma SourceDegOffset(x: bv16)
    ensures x != 0 ==> SourceDeg(x) == Deg(x) + 16
    ensures x == 0 ==> SourceDeg(x) == 15
  {
  }

  /** The numerically larger of two non-zero polynomials has at least its degree. */
  lemma DegMonotone(a: bv16, b: bv16)
    requires b != 0 && a >= b
    ensures Deg(a) >= Deg(b)
  {
    DegTop(a);
    DegTop(b);
  }

  /** The numerically larger polynomial has the larger source degree, at most 15
      apart: the shift in `bit_polynomial_mod` stays within 16 bits. */
  lemma DegGap(a: bv16, b: bv16)
    requires b != 0 && a >= b
    ensures SourceDeg(b) <= SourceDeg(a) <= 31 && SourceDeg(a) - SourceDeg(b) <= 15
    ensures Deg(b) <= Deg(a) && SourceDeg(a) - SourceDeg(b) == Deg(a) - Deg(b)
  {
    DegMonotone(a, b);
    SourceDegOffset(a);
    SourceDegOffset(b);
  }

  /** XOR-ing `b` aligned under the top bit of `a` clears that bit, so the
      result is numerically smaller than `a`. */
  lemma ClearTop(a: bv16, b: bv16)
    requires b != 0 && a >= b
    ensures SourceDeg(b) <= SourceDeg(a) && Reduce(a, b) < a
  {
    DegTop(a);
    DegTop(b);
    DegGap(a, b);
    ReduceBelowAt(a, b, Deg(a), Deg(b));
  }

  lemma ReduceBelowAt(a: bv16, b: bv16, da: bv16, db: bv16)
    requires b != 0 && a >= b && db <= da <= 15 && Shr(a, da) == 1 && Shr(b, db) == 1
    requires SourceDeg(a) - SourceDeg(b) == da - db
    ensures Reduce(a, b) < a
  {
    AlignedXorBelow(a, b, da, db);
  }

  lemma AlignedXorBelow(a: bv16, b: bv16, da: bv16, db: bv16)
    requires db <= da <= 15 && Shr(a, da) == 1 && Shr(b, db) == 1
    ensures (a ^ Shl(b, da - db)) < a
  {
    AlignedXorBelowBits(a, b, da, db);
  }

  lemma AlignedXorBelowBits(a: bv16, b: bv16, da: bv16, db: bv16)
    requires db <= da <= 15 && a >> da == 1 && b >> db == 1
    ensures (a ^ (b << (da - db))) < a
  {
    var c := b << (da - db);
    assert c >> da == 1;
    assert (a ^ c) >> da == 0;
  }

  // ---------------------------------------------------------------------------
  // bit_polynomial_multiply
  // ---------------------------------------------------------------------------

  /** `b_temp` holds the bits of `b` not yet consumed; they fit in the 16 - i
      positions above the i already consumed. */
  predicate ClRange(bTemp: bv16, i: bv16) {
    i <= 16 && Shr(bTemp, 16 - i) == 0
  }

  lemma ClRangeStep(bTemp: bv16, i: bv16)
    requires ClRange(bTemp, i) && bTemp != 0
    ensures i < 16 && ClRange(bTemp >> 1, i + 1) && bTemp >> 1 < bTemp
  {
    ClRangeStepBits(bTemp, i);
  }

  lemma ClRangeStepBits(bTemp: bv16, i: bv16)
    requires i <= 16 && bTemp >> (16 - i) == 0 && bTemp != 0
    ensures i < 16 && (bTemp >> 1) >> (16 - (i + 1)) == 0
  {
  }

  /** `if b_temp & 1 != 0 { result ^= a << i }`. */
  function ClAccumulate(result: bv16, a: bv16, bTemp: bv16, i: bv16): bv16
    requires i <= 16
  {
    if bTemp & 1 != 0 then result ^ Shl(a, i) else result
  }

  /** The loop of `bit_polynomial_multiply`. */
  function ClMulLoop(a: bv16, bTemp: bv16, i: bv16, result: bv16): bv16
    requires ClRange(bTemp, i)
    decreases bTemp
  {
    if bTemp == 0 then result
    else
      ClRangeStep(bTemp, i);
      ClMulLoop(a, bTemp >> 1, i + 1, ClAccumulate(result, a, bTemp, i))
  }

  /** `bit_polynomial_multiply(a, b)`: carry-less product truncated to 16 bits. */
  function BitPolyMul(a: bv16, b: bv16): bv16 {
    ClMulLoop(a, b, 0, 0)
  }

  method BitPolynomialMultiply(a: bv16, b: bv16) returns (result: bv16)
    ensures result == BitPolyMul(a, b)
  {
    result := 0;
    var bTemp := b;
    var i: bv16 := 0;
    while bTemp > 0
      invariant ClRange(bTemp, i)
      invariant ClMulLoop(a, bTemp, i, result) == BitPolyMul(a, b)
      decreases bTemp
    {
      ClRangeStep(bTemp, i);
      result := ClAccumulate(result, a, bTemp, i);
      bTemp := bTemp >> 1;
      i := i + 1;
    }
  }

  lemma {:induction false} ClMulLoopZero(bTemp: bv16, i: bv16)
    requires ClRange(bTemp, i)
    ensures ClMulLoop(0, bTemp, i, 0) == 0
    decreases bTemp
  {
    if bTemp != 0 {
      ClRangeStep(bTemp, i);
      assert ClAccumulate(0, 0, bTemp, i) == 0;
      ClMulLoopZero(bTemp >> 1, i + 1);
    }
  }

  /** 0 annihilates and 1 is neutral, on either side for 0. */
  lemma BitPolyMulUnits(a: bv16, b: bv16)
    ensures BitPolyMul(a, 0) == 0 && BitPolyMul(0, b) == 0
    ensures BitPolyMul(a, 1) == a
  {
    ClMulLoopZero(b, 0);
    ClRangeStep(1, 0);
    assert ClAccumulate(0, a, 1, 0) == a;
  }

  // ---------------------------------------------------------------------------
  // bit_polynomial_divide
  // ---------------------------------------------------------------------------

  predicate DivRange(bDeg: bv16, i: bv16) {
    16 <= bDeg <= 31 && i <= 15 && bDeg + i <= 31
  }

  lemma DivRangeDown(bDeg: bv16, i: bv16)
    requires DivRange(bDeg, i) && i != 0
    ensures DivRange(bDeg, i - 1) && i - 1 < i
  {
  }

  /** One iteration: if bit `b_deg + i` of `tmp` is set, set quotient bit i and
      XOR `b << i` into `tmp`. The bit index is written with the degree offset
      removed, which is what the release build's masked shift computes. */
  function DivStep(tmp: bv16, b: bv16, bDeg: bv16, i: bv16, q: bv16): (bv16, bv16)
    requires DivRange(bDeg, i)
  {
    if tmp & Shl(1, bDeg + i - 16) != 0 then (q | Shl(1, i), tmp ^ Shl(b, i)) else (q, tmp)
  }

  /** The `for i in (0..=a_deg - b_deg).rev()` loop: the quotient and what is
      left of `tmp`. */
  function DivLoop(tmp: bv16, b: bv16, bDeg: bv16, i: bv16, q: bv16): (bv16, bv16)
    requires DivRange(bDeg, i)
    decreases i
  {
    var (q', tmp') := DivStep(tmp, b, bDeg, i, q);
    if i == 0 then (q', tmp')
    else
      DivRangeDown(bDeg, i);
      DivLoop(tmp', b, bDeg, i - 1, q')
  }

  lemma SourceDegRange(x: bv16)
    ensures 15 <= SourceDeg(x) <= 31
    ensures x != 0 ==> 16 <= SourceDeg(x)
  {
    SourceDegOffset(x);
  }

  lemma DivStart(a: bv16, b: bv16)
    requires b != 0 && SourceDeg(a) >= SourceDeg(b)
    ensures DivRange(SourceDeg(b), SourceDeg(a) - SourceDeg(b))
  {
    SourceDegRange(a);
    SourceDegRange(b);
  }

  /** `bit_polynomial_divide(a, b)`: 0 when `a` has lower degree than `b`. */
  function BitPolyDivide(a: bv16, b: bv16): bv16
    requires b != 0
  {
    if SourceDeg(a) < SourceDeg(b) then 0
    else
      DivStart(a, b);
      DivLoop(a, b, SourceDeg(b), SourceDeg(a) - SourceDeg(b), 0).0
  }

  method BitPolynomialDivide(a: bv16, b: bv16) returns (result: bv16)
    requires b != 0
    ensures result == BitPolyDivide(a, b)
    ensures SourceDeg(a) < SourceDeg(b) ==> result == 0
  {
    var bDeg := SourceDeg(b);
    var aDeg := SourceDeg(a);
    if aDeg < bDeg {
      return 0;
    }
    DivideUnfold(a, b);
    result := DivideFrom(a, b, bDeg, aDeg - bDeg);
  }

  lemma DivideUnfold(a: bv16, b: bv16)
    requires b != 0 && SourceDeg(a) >= SourceDeg(b)
    ensures DivRange(SourceDeg(b), SourceDeg(a) - SourceDeg(b))
    ensures BitPolyDivide(a, b) == DivLoop(a, b, SourceDeg(b), SourceDeg(a) - SourceDeg(b), 0).0
  {
    DivStart(a, b);
  }

  /** The quotient loop of `bit_polynomial_divide`, from bit `i` down to 0. */
  method DivideFrom(a: bv16, b: bv16, bDeg: bv16, start: bv16) returns (result: bv16)
    requires DivRange(bDeg, start)
    ensures result == DivLoop(a, b, bDeg, start, 0).0
  {
    result := 0;
    var tmp := a;
    var i := start;
    while true
      invariant DivRange(bDeg, i)
      invariant DivLoop(tmp, b, bDeg, i, result).0 == DivLoop(a, b, bDeg, start, 0).0
      decreases i
    {
      var (q', tmp') := DivStep(tmp, b, bDeg, i, result);
      result, tmp := q', tmp';
      if i == 0 {
        return;
      }
      DivRangeDown(bDeg, i);
      i := i - 1;
    }
  }

  lemma DivStepClears(tmp: bv16, b: bv16, bDeg: bv16, i: bv16, q: bv16)
    requires DivRange(bDeg, i) && Shr(b, bDeg - 16) == 1
    requires Shr(tmp, bDeg + i - 15) == 0
    ensures Shr(DivStep(tmp, b, bDeg, i, q).1, bDeg + i - 16) == 0
  {
    DivStepClearsBits(tmp, b, bDeg, i);
  }

  lemma DivStepClearsBits(tmp: bv16, b: bv16, bDeg: bv16, i: bv16)
    requires 16 <= bDeg <= 31 && i <= 15 && bDeg + i <= 31
    requires b >> (bDeg - 16) == 1 && tmp >> (bDeg + i - 15) == 0
    ensures (if tmp & (1 << (bDeg + i - 16)) != 0 then tmp ^ (b << i) else tmp) >> (bDeg + i - 16) == 0
  {
  }

  /** Each step clears bit `deg(b) + i` when it is set, so after the last step
      nothing at or above `deg(b)` is left: the quotient loop leaves the true
      carry-less remainder in `tmp`. */
  lemma {:induction false} DivLoopClears(tmp: bv16, b: bv16, bDeg: bv16, i: bv16, q: bv16)
    requires DivRange(bDeg, i) && Shr(b, bDeg - 16) == 1
    requires Shr(tmp, bDeg + i - 15) == 0
    ensures Shr(DivLoop(tmp, b, bDeg, i, q).1, bDeg - 16) == 0
    decreases i
  {
    var (q', tmp') := DivStep(tmp, b, bDeg, i, q);
    DivStepClears(tmp, b, bDeg, i, q);
    if i != 0 {
      DivRangeDown(bDeg, i);
      DivLoopClears(tmp', b, bDeg, i - 1, q');
    }
  }

  // ---------------------------------------------------------------------------
  // bit_polynomial_mod
  // ---------------------------------------------------------------------------

  /** `tmp ^= b << (tmp_deg - b_deg)`, for `tmp >= b`. */
  function Reduce(tmp: bv16, b: bv16): bv16
    requires b != 0 && tmp >= b
  {
    DegGap(tmp, b);
    tmp ^ Shl(b, SourceDeg(tmp) - SourceDeg(b))
  }

  /** The `while tmp >= b` loop. Its `tmp_deg < b_deg` break can never fire. */
  function ModLoop(tmp: bv16, b: bv16): (r: bv16)
    requires b != 0
    ensures r < b
    decreases tmp
  {
    if tmp < b then tmp
    else
      ClearTop(tmp, b);
      if SourceDeg(tmp) < SourceDeg(b) then assert false; tmp
      else ModLoop(Reduce(tmp, b), b)
  }

  /** One turn of the loop: the top bit is cleared and the remainder is unchanged. */
  lemma ModLoopStep(tmp: bv16, b: bv16)
    requires b != 0 && tmp >= b
    ensures SourceDeg(b) <= SourceDeg(tmp) && Reduce(tmp, b) < tmp
    ensures ModLoop(tmp, b) == ModLoop(Reduce(tmp, b), b)
  {
    ClearTop(tmp, b);
  }

  /** `bit_polynomial_mod(a, b)`: numerically below `b`. The source spins
      forever on `b = 0`. Its `b_deg == 0` guard never fires, because the
      degree carries the +16 offset (`SourceDegRange`). */
  function BitPolyMod(a: bv16, b: bv16): (r: bv16)
    requires b != 0
    ensures r < b
  {
    if SourceDeg(b) == 0 then 0 else ModLoop(a, b)
  }

  method BitPolynomialMod(a: bv16, b: bv16) returns (tmp: bv16)
    requires b != 0
    ensures tmp == BitPolyMod(a, b)
  {
    var bDeg := SourceDeg(b);
    if bDeg == 0 {
      return 0;
    }
    tmp := ReduceWhile(a, b, bDeg);
  }

  /** The `while tmp >= b` loop of `bit_polynomial_mod`. */
  /** `x` and `y` leave the same remainder. */
  predicate ModEq(x: bv16, y: bv16, b: bv16)
    requires b != 0
  {
    ModLoop(x, b) == ModLoop(y, b)
  }

  lemma ModEqStep(tmp: bv16, a: bv16, b: bv16)
    requires b != 0 && tmp >= b && ModEq(tmp, a, b)
    ensures SourceDeg(b) <= SourceDeg(tmp) && Reduce(tmp, b) < tmp && ModEq(Reduce(tmp, b), a, b)
  {
    ModLoopStep(tmp, b);
  }

  method ReduceWhile(a: bv16, b: bv16, bDeg: bv16) returns (tmp: bv16)
    requires b != 0 && bDeg == SourceDeg(b)
    ensures tmp == ModLoop(a, b)
  {
    tmp := a;
    while tmp >= b
      invariant ModEq(tmp, a, b)
      decreases tmp
    {
      var tmpDeg := SourceDeg(tmp);
      ModEqStep(tmp, a, b);
      if tmpDeg < bDeg {
        assert false;
        break;
      }
      tmp := Reduce(tmp, b);
    }
  }

  /** The remainder stops at the first value numerically below `b`, which need
      not have lower degree: 11 mod 7 is 5 (degree 2, like 7), whereas the
      quotient loop of `bit_polynomial_divide` leaves the carry-less remainder 2
      (with quotient 3). */
  lemma ModStopsNumerically()
    ensures BitPolyMod(11, 7) == 5 && Deg(5) == Deg(7)
    ensures DivLoop(11, 7, SourceDeg(7), 1, 0) == (3, 2)
  {
    SourceDegOffset(7);
    SourceDegOffset(11);
    assert Reduce(11, 7) == 5;
    assert ModLoop(11, 7) == ModLoop(5, 7);
    assert DivStep(11, 7, 18, 1, 0) == (2, 5);
    assert DivStep(5, 7, 18, 0, 2) == (3, 2);
    assert DivLoop(11, 7, 18, 1, 0) == DivLoop(5, 7, 18, 0, 2);
  }

  // ---------------------------------------------------------------------------
  // inverse
  // ---------------------------------------------------------------------------

  /** The `(r, s, t)` pairs of the extended Euclidean loop of `inverse`. */
  datatype Eea = Eea(r0: bv16, r1: bv16, s0: bv16, s1: bv16, t0: bv16, t1: bv16)

  /** One turn of the loop: `q = r0 / r1`, `r2 = r0 mod r1`, and every pair
      moves on by one. The loop condition rules out `r1 == 0`. */
  function EeaNext(e: Eea): (n: Eea)
    ensures e.r1 != 0 ==> n.r1 < e.r1
  {
    if e.r1 == 0 then e
    else
      var q := BitPolyDivide(e.r0, e.r1);
      Eea(e.r1, BitPolyMod(e.r0, e.r1), e.s1, e.s0 ^ BitPolyMul(q, e.s1), e.t1, e.t0 ^ BitPolyMul(q, e.t1))
  }

  /** The loop runs until `r1 == 0` and yields `t0`; it stops because
      `bit_polynomial_mod(r0, r1) < r1`. */
  function EeaLoop(e: Eea): bv16
    decreases e.r1
  {
    if e.r1 == 0 then e.t0 else EeaLoop(EeaNext(e))
  }

  /** One Euclidean step, given the quotient, remainder and products. */
  lemma EeaStep(e: Eea, q: bv16, r2: bv16, qs: bv16, qt: bv16)
    requires e.r1 != 0 && q == BitPolyDivide(e.r0, e.r1) && r2 == BitPolyMod(e.r0, e.r1)
    requires qs == BitPolyMul(q, e.s1) && qt == BitPolyMul(q, e.t1)
    ensures EeaNext(e) == Eea(e.r1, r2, e.s1, e.s0 ^ qs, e.t1, e.t0 ^ qt)
  {
    var n := EeaNext(e);
    assert n.r0 == e.r1 && n.r1 == r2 && n.s0 == e.s1 && n.s1 == e.s0 ^ qs && n.t0 == e.t1 && n.t1 == e.t0 ^ qt;
  }

  /** A step leaves the loop's result unchanged. */
  lemma EeaLoopUnfold(e: Eea)
    requires e.r1 != 0
    ensures EeaLoop(e) == EeaLoop(EeaNext(e))
  {
  }

  /** `inverse(a)`: asserts `a != 0`; returns the last `t0` as a `u8`. */
  function Inv(f: Field, a: Byte): Byte
    requires f.Sized() && a != 0
  {
    Low8(EeaLoop(Eea(f.poly, a as bv16, 1, 0, 0, 1)))
  }

  method Inverse(f: Field, a: Byte) returns (r: Byte)
    requires f.Sized() && a != 0
    ensures r == Inv(f, a)
  {
    var r0 := f.poly;
    var r1 := a as bv16;
    var s0: bv16, s1: bv16, t0: bv16, t1: bv16 := 1, 0, 0, 1;
    while r1 != 0
      invariant EeaLoop(Eea(r0, r1, s0, s1, t0, t1)) == EeaLoop(Eea(f.poly, a as bv16, 1, 0, 0, 1))
      decreases r1
    {
      var e := Eea(r0, r1, s0, s1, t0, t1);
      var n := EeaTurn(e);
      EeaLoopUnfold(e);
      r0, r1, s0, s1, t0, t1 := n.r0, n.r1, n.s0, n.s1, n.t0, n.t1;
    }
    r := Low8(t0);
  }

  /** The body of the loop: the four calls and the moves of the pairs. */
  method EeaTurn(e: Eea) returns (n: Eea)
    requires e.r1 != 0
    ensures n == EeaNext(e)
  {
    var q := BitPolynomialDivide(e.r0, e.r1);
    var r2 := BitPolynomialMod(e.r0, e.r1);
    var qs := BitPolynomialMultiply(q, e.s1);
    var qt := BitPolynomialMultiply(q, e.t1);
    EeaStep(e, q, r2, qs, qt);
    n := Eea(e.r1, r2, e.s1, e.s0 ^ qs, e.t1, e.t0 ^ qt);
  }

  /** 1 is its own inverse: the first Euclidean step already leaves remainder 0. */
  lemma InverseOfOne(f: Field)
    requires f.Sized()
    ensures Inv(f, 1) == 1
  {
    var e := Eea(f.poly, 1, 1, 0, 0, 1);
    var q := BitPolyDivide(f.poly, 1);
    assert BitPolyMod(f.poly, 1) == 0;
    BitPolyMulUnits(q, 0);
    BitPolyMulUnits(q, 1);
    EeaStep(e, q, 0, 0, q);
    assert EeaLoop(e) == EeaLoop(Eea(1, 0, 0, 1, 1, q));
  }

  // ---------------------------------------------------------------------------
  // random_support
  // ---------------------------------------------------------------------------

  /** `(lo..lo + count).collect()` over `u8`: `count` consecutive bytes from `lo`,
      none of them wrapped. */
  function ByteRange(lo: Byte, count: nat): (c: seq<Byte>)
    requires lo as int + count <= 256
    ensures |c| == count
    ensures forall i | 0 <= i < count :: c[i] as int == lo as int + i
    decreases count
  {
    if count <= 1 then seq(count, i requires 0 <= i < count => lo)
    else ByteSucc(lo); [lo] + ByteRange(lo + 1, count - 1)
  }

  /** Counting up from a byte below 255 does not wrap. */
  lemma ByteSucc(x: Byte)
    requires x as int < 255
    ensures (x + 1) as int == x as int + 1
  {
  }

  /** `(1..field_size as u8).collect()`: the cast truncates 256 to 0, so for
      m = 8 the range is empty. */
  function SupportCandidates(f: Field): (c: seq<Byte>)
    requires f.Sized()
    ensures |c| == (if f.m == 8 then 0 else FieldSize(f) - 1)
    ensures forall i | 0 <= i < |c| :: c[i] as int == i + 1
  {
    var top := FieldSize(f) % 256;
    if top == 0 then [] else ByteRange(1, top - 1)
  }

  /** `random_support(size)` as written: `shuffle` is the permutation the shuffle
      applied, and `all_elements[0..real_size]` panics (`None`) when the slice
      runs past the candidates. */
  function RandomSupportAsWritten(f: Field, size: nat, shuffle: seq<nat>): (r: Option<seq<Byte>>)
    requires f.Sized() && IsPermutation(shuffle, |SupportCandidates(f)|)
    ensures r.None? <==> f.m == 8 && size > 0
  {
    var c := SupportCandidates(f);
    var realSize := Min(size, FieldSize(f) - 1);
    if realSize > |c| then None else Some(seq(realSize, i requires 0 <= i < realSize => c[shuffle[i]]))
  }

  /** The non-zero field elements `1..2^m`, as the range is meant. */
  function NonZeroElements(f: Field): (c: seq<Byte>)
    requires f.Sized()
    ensures |c| == FieldSize(f) - 1
    ensures forall i | 0 <= i < |c| :: c[i] as int == i + 1
  {
    ByteRange(1, FieldSize(f) - 1)
  }

  /** `random_support(size)` with the range over all non-zero elements. */
  function RandomSupport(f: Field, size: nat, shuffle: seq<nat>): (r: seq<Byte>)
    requires f.Sized() && IsPermutation(shuffle, FieldSize(f) - 1)
    ensures |r| == Min(size, FieldSize(f) - 1)
    ensures forall i | 0 <= i < |r| :: 0 < r[i] as int < FieldSize(f)
    ensures Distinct(r)
  {
    var c := NonZeroElements(f);
    var realSize := Min(size, FieldSize(f) - 1);
    seq(realSize, i requires 0 <= i < realSize => c[shuffle[i]])
  }

  /** Below m = 8 the cast is harmless and the written function is the intended one. */
  lemma RandomSupportAgrees(f: Field, size: nat, shuffle: seq<nat>)
    requires f.Sized() && f.m < 8 && IsPermutation(shuffle, FieldSize(f) - 1)
    ensures RandomSupportAsWritten(f, size, shuffle) == Some(RandomSupport(f, size, shuffle))
  {
    assert SupportCandidates(f) == NonZeroElements(f);
  }

  /** In GF(256) every non-empty request panics: there are no candidates at all. */
  lemma RandomSupportEmptyAtEight(size: nat)
    requires size > 0
    ensures RandomSupportAsWritten(NewField(8), size, []) == None
    ensures |RandomSupport(NewField(8), size, Range(0, 255))| == Min(size, 255)
  {
  }
}
