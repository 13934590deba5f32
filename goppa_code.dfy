/** The Goppa constructor of src/code_generator.rs: the parameter check, the
    support-repair loop and the hand-off to the parity-check construction and
    the systematic conversion. */
module GoppaCode {
  import opened Gf2
  import opened FiniteField
  import opened Polynomials
  import opened Codes
  import opened Goppa

  /** `Ok((g, h))`, the `Err` of an invalid parameter set, the point where the
      supplied repair draws run out (the source would keep drawing), or the
      panic of `generate_goppa_parity_matrix` at `support[j]` when the support
      is shorter than n. */
  datatype GoppaOutcome = Invalid | Built(g: Matrix, h: Matrix) | OutOfDraws | ShortSupport

  /** The support as the source keeps it: n distinct non-zero field elements. */
  predicate GoodSupport(support: seq<Byte>, n: nat, m: nat) {
    |support| == n && Distinct(support) && forall j | 0 <= j < n :: 0 < support[j] as int < Pow2(m)
  }

  /** `for j in 0..support.len() { .. if g_l_j == 0 { .. break; } }`: the index
      of the first root of g in the support, or `|support|` when there is none. */
  method FirstRoot(g: Poly, support: seq<Byte>, f: Field) returns (j: nat)
    requires f.Sized() && |g| > 0
    ensures j <= |support| && RootFree(f, g, support, j)
    ensures j < |support| ==> !NonRoot(f, g, support[j])
  {
    j := 0;
    while j < |support|
      invariant j <= |support| && RootFree(f, g, support, j)
    {
      var gx := EvaluatePoly(g, support[j], f);
      if gx == 0 {
        return;
      }
      j := j + 1;
    }
  }

  /** The inner `loop`: draw `gen_range(1..field_size)` until the value is not in
      the support. The draws come from `draws`, starting at `next`; `found` is
      false when they run out first. */
  method DrawFresh(support: seq<Byte>, draws: seq<Byte>, next: nat) returns (found: bool, x: Byte, after: nat)
    requires next <= |draws|
    ensures next <= after <= |draws|
    ensures forall d | next <= d < after - 1 :: draws[d] in support
    ensures found ==> next < after && x == draws[after - 1] && x !in support
    ensures !found ==> after == |draws| && forall d | next <= d < |draws| :: draws[d] in support
  {
    after := next;
    while after < |draws|
      invariant next <= after <= |draws|
      invariant forall d | next <= d < after :: draws[d] in support
    {
      x := draws[after];
      after := after + 1;
      if x !in support {
        return true, x, after;
      }
    }
    return false, 0, after;
  }

  /** `generate_goppa_code(n, k, t)` with the field degree m given and the random
      choices passed in: `polyDraws` feeds `random_irreducible_poly`, `shuffle`
      feeds `random_support`, and `repairDraws` the `gen_range(1..field_size)`
      calls of the repair loop. The polynomial and the final support are returned
      as ghosts so that the contract can name them. For n ≥ 2^m the support
      holds all 2^m − 1 non-zero elements: a root in it starves the repair
      loop, and a root-free one is too short for the parity matrix. */
  method GenerateGoppaCode(n: nat, k: nat, t: nat, m: nat, polyDraws: seq<Byte>, shuffle: seq<nat>,
                           repairDraws: seq<Byte>)
    returns (r: GoppaOutcome, ghost poly: Poly, ghost support: seq<Byte>)
    requires k <= n - m * t ==> 2 <= m <= 8
    requires k <= n - m * t ==> |polyDraws| == t && forall i | 0 <= i < t :: polyDraws[i] as int < Pow2(m)
    requires k <= n - m * t ==> IsPermutation(shuffle, Pow2(m) - 1)
    requires k <= n - m * t ==> forall d | 0 <= d < |repairDraws| :: 0 < repairDraws[d] as int < Pow2(m)
    ensures r.Invalid? <==> k > n - m * t
    ensures r.Built? ==> 2 <= m <= 8 && |polyDraws| == t && poly == MonicFromDraws(t, polyDraws)
    ensures r.Built? ==> n < Pow2(m)
    ensures r.Built? ==> GoodSupport(support, n, m) && RootFree(FieldOfDegree(m), poly, support, n)
    ensures r.ShortSupport? ==> Pow2(m) <= n && GoodSupport(support, Pow2(m) - 1, m)
    ensures r.ShortSupport? ==> RootFree(FieldOfDegree(m), poly, support, |support|)
    ensures r.OutOfDraws? ==>
      !RootFree(FieldOfDegree(m), MonicFromDraws(t, polyDraws), RandomSupport(FieldOfDegree(m), n, shuffle),
                Min(n, Pow2(m) - 1))
    ensures r.Built? ==> GoppaParity(FieldOfDegree(m), poly, support, n, t).rows <= n
    ensures r.Built? ==>
      Code(r.g, r.h) == ConvertToSystematic(GoppaParity(FieldOfDegree(m), poly, support, n, t))
  {
    if k > n - m * t {
      return Invalid, [], [];
    }
    var f := FieldOfDegree(m);
    var goppaPoly := RandomIrreduciblePoly(t, f, polyDraws);
    var drawn := RandomSupport(f, n, shuffle);
    poly := goppaPoly;
    var ok, supp := RepairSupport(goppaPoly, drawn, m, f, repairDraws);
    if !ok {
      return OutOfDraws, poly, supp;
    }
    support := supp;
    if |supp| < n {
      return ShortSupport, poly, supp;
    }
    ParityRows(t, m, n, k);
    var h := GenerateGoppaParityMatrix(n, t, goppaPoly, supp, f);
    var c := ConvertToSystematic(h);
    r := Built(c.g, c.h);
  }

  /** The `while !valid` loop: while g has a root in the support, the first
      root is replaced by the next draw not yet in the support. `ok` is false
      when the draws run out, which only a support with a root can cause; a
      root-free support comes back unchanged. */
  method RepairSupport(g: Poly, initial: seq<Byte>, m: nat, f: Field, repairDraws: seq<Byte>)
    returns (ok: bool, supp: seq<Byte>)
    requires f.Sized() && |g| > 0 && GoodSupport(initial, |initial|, m)
    requires forall d | 0 <= d < |repairDraws| :: 0 < repairDraws[d] as int < Pow2(m)
    ensures |supp| == |initial| && GoodSupport(supp, |supp|, m)
    ensures ok ==> RootFree(f, g, supp, |supp|)
    ensures !ok ==> !RootFree(f, g, initial, |initial|)
    ensures RootFree(f, g, initial, |initial|) ==> ok && supp == initial
  {
    supp := initial;
    var next := 0;
    var valid := false;
    while !valid
      invariant supp == initial || !RootFree(f, g, initial, |initial|)
      invariant |supp| == |initial| && GoodSupport(supp, |supp|, m) && next <= |repairDraws|
      invariant valid ==> RootFree(f, g, supp, |supp|)
      decreases |repairDraws| - next, if valid then 0 else 1
    {
      valid := true;
      var j := FirstRoot(g, supp, f);
      if j < |supp| {
        valid := false;
        var found, x, after := DrawFresh(supp, repairDraws, next);
        if !found {
          return false, supp;
        }
        next := after;
        supp := supp[j := x];
      }
    }
    ok := true;
  }

  /** The m·t parity rows fit in the n columns once the parameter check passed. */
  lemma ParityRows(t: nat, m: nat, n: nat, k: nat)
    requires k <= n - m * t
    ensures Rows(t, m) <= n
  {
    RowsProduct(t, m);
  }

  // ---------------------------------------------------------------------------
  // The repair loop when the support already holds every non-zero element
  // ---------------------------------------------------------------------------

  /** The support's values as naturals. */
  function AsNats(s: seq<Byte>): (r: seq<nat>)
    ensures |r| == |s| && forall i | 0 <= i < |s| :: r[i] == s[i] as nat
  {
    seq(|s|, i requires 0 <= i < |s| => s[i] as nat)
  }

  lemma ByteAsNat(x: Byte, y: Byte)
    ensures x as nat == y as nat ==> x == y
  {
  }

  /** n = 2^m − 1 distinct non-zero elements are all of them: every value the
      repair loop can draw is already in the support, so once g has a root in
      such a support the `loop` of code_generator.rs never ends. */
  lemma RepairStarves(support: seq<Byte>, m: nat, x: Byte)
    requires GoodSupport(support, Pow2(m) - 1, m) && 0 < x as int < Pow2(m)
    ensures x in support
  {
    var values := AsNats(support);
    forall i, j | 0 <= i < j < |values| ensures values[i] != values[j] {
      ByteAsNat(support[i], support[j]);
    }
    CoversRange(values, 1, Pow2(m), x as nat);
    var i :| 0 <= i < |values| && values[i] == x as nat;
    ByteAsNat(support[i], x);
  }

  /** With n = 7 and t = 1 the parameter check passes (1 ≤ 7 − 3·1), the support
      is all seven non-zero elements of GF(2^3), and g = x + c has the root c:
      every repair draw is rejected. */
  lemma RepairStarvesExample(shuffle: seq<nat>, c: Byte)
    requires IsPermutation(shuffle, 7) && 0 < c as int < 8
    ensures 1 <= 7 - 3 * 1
    ensures |RandomSupport(FieldOfDegree(3), 7, shuffle)| == 7
    ensures c in RandomSupport(FieldOfDegree(3), 7, shuffle)
  {
    var s := RandomSupport(FieldOfDegree(3), 7, shuffle);
    RepairStarves(s, 3, c);
  }

  // ---------------------------------------------------------------------------
  // The field degree: `(n as f64).log2().ceil()` against "2^m > n"
  // ---------------------------------------------------------------------------

  /** `(n as f64).log2().ceil()` for n ≥ 1, as the source computes it: the least
      m with n ≤ 2^m. */
  function CeilLog2(n: nat): (m: nat)
    requires n >= 1
    ensures n <= Pow2(m) && (m > 0 ==> Pow2(m - 1) < n)
    decreases n
  {
    if n == 1 then 0 else CeilLog2((n + 1) / 2) + 1
  }

  /** The degree the comment at code_generator.rs:96 asks for: the least m
      with 2^m > n. */
  function DegreeAbove(n: nat): (m: nat)
    ensures n < Pow2(m) && (m > 0 ==> Pow2(m - 1) <= n)
    decreases n
  {
    if n == 0 then 0 else DegreeAbove(n / 2) + 1
  }

  /** The two differ exactly by one step of n: the intended degree for n is the
      computed one for n + 1. */
  lemma DegreeAboveShift(n: nat)
    ensures DegreeAbove(n) == CeilLog2(n + 1)
  {
    LeastPowerUnique(n, DegreeAbove(n), CeilLog2(n + 1));
  }

  /** There is only one least m with 2^m > n. */
  lemma LeastPowerUnique(n: nat, a: nat, b: nat)
    requires n < Pow2(a) && (a > 0 ==> Pow2(a - 1) <= n)
    requires n < Pow2(b) && (b > 0 ==> Pow2(b - 1) <= n)
    ensures a == b
  {
    if a < b {
      Pow2Monotone(a, b - 1);
    } else if b < a {
      Pow2Monotone(b, a - 1);
    }
  }

  /** For n = 8 the computed degree is 3, the parameter check passes with k = 1
      and t = 1, but GF(2^3) has only 7 non-zero elements: the support is one
      short, so no support of the required length exists and
      `generate_goppa_parity_matrix` fails at `support[7]`. */
  lemma CeilLog2ShortSupport(shuffle: seq<nat>, g: Poly)
    requires IsPermutation(shuffle, 7)
    ensures CeilLog2(8) == 3 && 1 <= 8 - CeilLog2(8) * 1
    ensures |RandomSupport(FieldOfDegree(3), 8, shuffle)| == 7
    ensures !RootFree(FieldOfDegree(3), g, RandomSupport(FieldOfDegree(3), 8, shuffle), 8)
  {
    assert CeilLog2(8) == CeilLog2(4) + 1 == CeilLog2(2) + 2 == 3;
  }

  /** With the intended degree every n from 3 to 255 gets a field the
      constructor accepts and a support of exactly n elements. */
  lemma DegreeAboveFullSupport(n: nat, shuffle: seq<nat>)
    requires 3 <= n <= 255
    requires 2 <= DegreeAbove(n) <= 8 ==> IsPermutation(shuffle, Pow2(DegreeAbove(n)) - 1)
    ensures 2 <= DegreeAbove(n) <= 8 && n < Pow2(DegreeAbove(n))
    ensures |RandomSupport(FieldOfDegree(DegreeAbove(n)), n, shuffle)| == n
  {
    var m := DegreeAbove(n);
    if m > 8 {
      Pow2Monotone(8, m - 1);
    }
  }
}
