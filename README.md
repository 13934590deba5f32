# PQCat in Dafny

A verified model of the computational core of PQCat, a Rust test bench for
code-based post-quantum cryptography. The model covers:

- **Bit-level GF(2^m) arithmetic** (module `FiniteField`): `FiniteField::new`,
  the shift-and-XOR `field_multiply`, the carry-less `bit_polynomial_*`
  helpers on `u16`, the Euclidean `inverse` and `random_support`. It models
  what the loops do, not textbook field arithmetic. Degrees are written as
  the source computes them, `31 - leading_zeros()` on a `u16`. That is the
  true degree plus 16, and the offset is proved to cancel.
- **Coefficient-list polynomials** (module `Polynomials`):
  `trim_polynomial`, `polynomial_add`, `polynomial_multiply`,
  `polynomial_divide`, `polynomial_mod`, `evaluate_poly` and
  `random_irreducible_poly`.
- **The GF(2) vector kernel** (modules `Gf2` and `Syndrome`):
  - error application as XOR;
  - the AND/XOR-fold syndrome and the `(h · v) mod 2` syndrome, with linearity
    proved for both;
  - partial syndromes;
  - k-subsets (`combinations`);
  - weight, `validate_syndrome`, and the random error vector.
- **Systematic code constructors**:
  - `Codes` covers the random code and the Hamming code, plus
    `convert_to_systematic`, with G·Hᵀ ≡ 0 (mod 2);
  - `Goppa` covers the Goppa parity matrix and `generate_valid_goppa_params`;
  - `GoppaCode` covers `generate_goppa_code` of src/code_generator.rs with
    its parameter check and support-repair loop;
  - `BinaryGoppa` covers the self-contained constructors of src/codes.rs.
- **The Patterson-style decoder** (module `Patterson`):
  - syndrome-polynomial accumulation;
  - Berlekamp–Massey with its LFSR invariant;
  - the root search;
  - the capped brute-force completions. Every non-trivial answer passed an
    explicit H-check.
- **The information-set-decoding searches**:
  - Prange (`Prange`);
  - Stern and Lee–Brickell, which share a meet-in-the-middle core
    (`MeetInTheMiddle`);
  - Ball-Collision (`BallCollision`);
  - BJMM (`Bjmm`);
  - all of these in both their src/algorithms and src/attacks copies, with
    the draws they share in `IsdCommon`.

Matrix entries and coefficients are bytes (`bv8`), so `u8` wrap-around is
native. The bit polynomials of the field are `bv16`. Counts and indices are
unbounded naturals.

Randomness comes in two forms.
- **Passed in as parameters:**
  - Prange's shuffles;
  - the Stern and Lee–Brickell half shuffles;
  - the coefficient draws of `random_irreducible_poly`;
  - the shuffle of `random_support`.
- **Nondeterministic choices:** the per-iteration shuffles and
  `choose_multiple` samples of Ball-Collision and BJMM (`Shuffled`,
  `ChooseMultiple`). Their properties therefore hold for every outcome.

`HashMap` iteration order is a nondeterministic key-by-key loop. The
`MAX_ITERATIONS` and `LIST_SIZE` constants come from an unshown `config.rs`
and are parameters wherever the source reads them.

Functions that the source repeats in several files are modelled once:
- `apply_errors` of src/algorithms/algorithm_utils.rs,
  src/attacks/attack_utils.rs and src/utils.rs (`Gf2.Xor`);
- `generate_random_error_vector` of src/algorithms/algorithm_utils.rs,
  src/attacks/attack_utils.rs and src/utils.rs
  (`Syndrome.GenerateRandomErrorVector`);
- `calculate_syndrome` and `generate_subsets` of
  src/algorithms/algorithm_utils.rs and src/attacks/attack_utils.rs;
- `generate_random_code` of src/utils.rs, src/code_generator.rs and
  src/codes.rs;
- the Hamming constructor of src/code_generator.rs and src/codes.rs;
- Lee–Brickell in src/algorithms and src/attacks.

src/attacks/stern.rs calls a `subset_generator` that no shown file defines.
It is given the `combinations` semantics of `generate_subsets`.
src/attacks/bjmm.rs calls `attack_utils::calculate_partial_syndrome`, which
src/attacks/attack_utils.rs does not define. It is given the semantics of the
one in src/algorithms/algorithm_utils.rs.

## Model

| member | source | states |
|---|---|---|
| FiniteField.NewField | src/codes/polynomial_utils.rs:8-24 | requires 1 < m ≤ 8 (the assert); the chosen polynomial has degree exactly m and constant term 1 |
| FiniteField.Degree | src/codes/polynomial_utils.rs:25-28 | `get_m` lies in 2..8 for every valid field |
| FiniteField.FieldAdd | src/codes/polynomial_utils.rs:30-33 | the sum is XOR: adding either operand back recovers the other |
| FiniteField.FieldMultiply | src/codes/polynomial_utils.rs:35-63 | the loop computes the recursive shift-and-XOR definition `Mul`, and returns 0 when either operand is 0 |
| FiniteField.MulOne | src/codes/polynomial_utils.rs:35-63 | multiplying by 1 returns the other operand |
| FiniteField.MulBound | src/codes/polynomial_utils.rs:50-58 | the mask keeps the product below 2^(m+1) for operands below 2^(m+1) |
| FiniteField.MulLeavesField | src/codes/polynomial_utils.rs:50-58 | bit m is tested before the shift, so in GF(8) `field_multiply(2, 4)` is 8, outside the field |
| FiniteField.SourceDegOffset | src/codes/polynomial_utils.rs:83-84 | `31 - leading_zeros` is the true degree + 16 for non-zero values and 15 for zero |
| FiniteField.DegGap | src/codes/polynomial_utils.rs:111-116 | when `tmp >= b` the source degrees differ by the true degrees' difference, at most 15, so the shift stays within 16 bits |
| FiniteField.ClearTop | src/codes/polynomial_utils.rs:116 | XOR-ing `b` aligned under the top bit of `tmp` makes `tmp` numerically smaller |
| FiniteField.BitPolynomialMultiply | src/codes/polynomial_utils.rs:66-80 | the loop computes the carry-less product `BitPolyMul` |
| FiniteField.BitPolyMulUnits | src/codes/polynomial_utils.rs:66-80 | 0 annihilates on both sides and 1 is neutral on the right |
| FiniteField.BitPolynomialDivide | src/codes/polynomial_utils.rs:82-101 | the loop computes `BitPolyDivide`; it returns 0 when `a` has a lower degree than `b` |
| FiniteField.DivLoopClears | src/codes/polynomial_utils.rs:93-98 | each step clears bit `deg(b) + i` when set, so no bit at or above deg(b) is left in `tmp` |
| FiniteField.BitPolyMod | src/codes/polynomial_utils.rs:103-121 | the remainder is numerically below `b` for every non-zero `b` (the loop terminates) |
| FiniteField.BitPolynomialMod | src/codes/polynomial_utils.rs:103-121 | the while loop computes `BitPolyMod` |
| FiniteField.ModLoopStep | src/codes/polynomial_utils.rs:111-117 | one turn clears the top bit and keeps the loop's result |
| FiniteField.ModStopsNumerically | src/codes/polynomial_utils.rs:111-117 | `bit_polynomial_mod(11, 7)` is 5, of the same degree as 7, while the divide loop leaves the carry-less remainder 2 |
| FiniteField.EeaNext | src/codes/polynomial_utils.rs:134-146 | each Euclidean step makes `r1` strictly smaller, so `inverse` terminates |
| FiniteField.Inverse | src/codes/polynomial_utils.rs:123-150 | requires a ≠ 0 (the assert); the loop computes the Euclidean recursion `Inv` |
| FiniteField.InverseOfOne | src/codes/polynomial_utils.rs:123-150 | the inverse of 1 is 1 |
| FiniteField.SupportCandidates | src/codes/polynomial_utils.rs:154-160 | `(1..field_size as u8)` has 2^m − 1 entries 1, 2, … except for m = 8, where the cast makes it empty |
| FiniteField.RandomSupportAsWritten | src/codes/polynomial_utils.rs:152-165 | as written, the slice panics exactly when m = 8 and the size is non-zero |
| FiniteField.RandomSupport | src/codes/polynomial_utils.rs:152-165 | the intended support: min(size, 2^m − 1) distinct non-zero field elements |
| FiniteField.RandomSupportAgrees | src/codes/polynomial_utils.rs:152-165 | below m = 8 the written and the intended supports are the same |
| FiniteField.RandomSupportEmptyAtEight | src/codes/polynomial_utils.rs:157-164 | in GF(256) every non-empty request panics as written, while the intended support has min(size, 255) elements |
| Polynomials.Trim | src/codes/polynomial_utils.rs:173-177 | trimming never lengthens and never empties a non-empty list |
| Polynomials.TrimShape | src/codes/polynomial_utils.rs:173-177 | the survivor is a prefix, everything dropped is 0, and the last survivor is non-zero unless alone |
| Polynomials.TrimUnique | src/codes/polynomial_utils.rs:173-177 | the shape facts determine the trimmed list |
| Polynomials.TrimIdempotent | src/codes/polynomial_utils.rs:173-177 | trimming twice is trimming once |
| Polynomials.TrimZeros | src/codes/polynomial_utils.rs:173-177 | an all-zero list trims to `[0]`, and the empty list stays empty |
| Polynomials.TrimPolynomial | src/codes/polynomial_utils.rs:173-177 | the pop loop computes `Trim` |
| Polynomials.TrimLeadNonZero | src/codes/polynomial_utils.rs:226-228 | a divisor that is not all zero keeps a non-zero leading coefficient after trimming |
| Polynomials.PolynomialAdd | src/codes/polynomial_utils.rs:180-193 | resize, XOR loop and trim compute `PolyAdd` |
| Polynomials.PolyAddCoefficients | src/codes/polynomial_utils.rs:180-193 | coefficient i of the sum is `a[i] ⊕ b[i]`, missing ones counting as 0, and everything cut off cancels |
| Polynomials.PolyAddCommutes | src/codes/polynomial_utils.rs:180-193 | addition commutes |
| Polynomials.PolyAddSelf | src/codes/polynomial_utils.rs:180-193 | a polynomial added to itself is `[0]` (or empty) |
| Polynomials.PolyAddEmpty | src/codes/polynomial_utils.rs:180-193 | adding the empty list only trims |
| Polynomials.PolyMul | src/codes/polynomial_utils.rs:196-218 | the product is empty exactly when an operand is; otherwise it has at most deg a + deg b + 1 coefficients |
| Polynomials.PolynomialMultiply | src/codes/polynomial_utils.rs:196-218 | the nested loops compute `PolyMul` |
| Polynomials.PolyMulByOne | src/codes/polynomial_utils.rs:196-218 | multiplying by `[1]` only trims |
| Polynomials.PolyMulByZero | src/codes/polynomial_utils.rs:196-218 | multiplying by an all-zero polynomial gives `[0]` |
| Polynomials.PolyDivide | src/codes/polynomial_utils.rs:221-261 | requires a non-empty dividend and a divisor that is not all zero (the panics); a lower-degree dividend comes back untouched with an empty quotient; otherwise the quotient has deg a − deg b + 1 coefficients and the remainder is trimmed and non-empty |
| Polynomials.PolynomialDivide | src/codes/polynomial_utils.rs:221-261 | the loops compute `PolyDivide` |
| Polynomials.DivideLoop | src/codes/polynomial_utils.rs:242-255 | the outer loop computes the rounds `DivRounds` |
| Polynomials.EliminateRow | src/codes/polynomial_utils.rs:250-254 | the inner loop subtracts `coef · b` at offset i |
| Polynomials.PolyMod | src/codes/polynomial_utils.rs:264-271 | `a` is untouched when shorter than the modulus, otherwise it becomes a trimmed non-empty remainder |
| Polynomials.PolynomialMod | src/codes/polynomial_utils.rs:264-271 | the method computes `PolyMod` |
| Polynomials.EvaluatePoly | src/codes/polynomial_utils.rs:274-285 | the loop computes `Eval`: `p[0]` (or 0) at x = 0, Horner from the top otherwise |
| Polynomials.HornerAtZero | src/codes/polynomial_utils.rs:275-277 | the x = 0 shortcut agrees with Horner evaluation |
| Polynomials.HornerTrailingZero | src/codes/polynomial_utils.rs:279-284 | a zero top coefficient does not change the value |
| Polynomials.EvalTrim | src/codes/polynomial_utils.rs:274-285 | trimming does not change the value at any point |
| Polynomials.EvalZero | src/codes/polynomial_utils.rs:274-285 | an all-zero polynomial vanishes everywhere |
| Polynomials.MonicFromDraws | src/codes/polynomial_utils.rs:288-306 | monic of degree t, the lower coefficients the draws, and a zero constant term replaced by 1 |
| Polynomials.RandomIrreduciblePoly | src/codes/polynomial_utils.rs:288-306 | the loop builds `MonicFromDraws`, with every coefficient a field element |
| Gf2.Xor | src/algorithms/algorithm_utils.rs:21-27 | `apply_errors` XORs over the shorter input |
| Gf2.XorInvolution | src/algorithms/algorithm_utils.rs:21-27 | applying the same error twice restores the codeword |
| Syndrome.CalculateSyndrome | src/algorithms/algorithm_utils.rs:29-42 | one entry per row of `h` |
| Syndrome.SyndromeLinear | src/algorithms/algorithm_utils.rs:29-42 | syn(a ⊕ b) = syn(a) ⊕ syn(b) for vectors of the width of `h` |
| Syndrome.SyndromeOfZero | src/algorithms/algorithm_utils.rs:29-42 | the zero vector has the zero syndrome |
| Syndrome.SyndromeMod2 | src/utils.rs:63-72 | requires the widths to agree (the assert); one 0/1 entry per row |
| Syndrome.SyndromeMod2Agrees | src/utils.rs:63-72 | on 0/1 inputs `(h · v) mod 2` is the XOR-fold syndrome |
| Syndrome.SyndromeMod2Linear | src/utils.rs:63-72 | the mod-2 syndrome is linear on 0/1 vectors |
| Syndrome.ValidateSyndromeSound | src/attacks/attack_utils.rs:51-54 | passing the check means agreeing with the syndrome on the common prefix |
| Syndrome.ValidateSyndromeUnreduced | src/attacks/attack_utils.rs:51-54 | there is no mod-2 reduction: a row meeting two errors sums to 2 and fails against a syndrome entry of 0 |
| Syndrome.CountOnesPositions | src/attacks/attack_utils.rs:47-49 | the weight counts the positions holding exactly 1 |
| Syndrome.MarkPositions | src/algorithms/prange.rs:30-33 | `vec![0; n]` with `v[i] = 1` for each chosen index is the indicator of those indices |
| Syndrome.SetOnes | src/algorithms/ball_collision.rs:93-102 | setting more indices to 1 in an existing buffer changes exactly those positions |
| Syndrome.MarkedWeight | src/algorithms/prange.rs:30-33 | distinct chosen indices give exactly that many ones |
| Syndrome.GenerateRandomErrorVector | src/algorithms/algorithm_utils.rs:6-19 | requires weight ≤ n (the assert); for any permutation the vector has length n, 0/1 entries and exactly `weight` ones |
| Syndrome.CalculatePartialSyndrome | src/algorithms/algorithm_utils.rs:49-59 | the nested loops compute `PartialSyndrome`, with length r |
| Syndrome.PartialSyndromeConcat | src/algorithms/algorithm_utils.rs:49-59 | concatenating index lists XORs their partial syndromes |
| Syndrome.PartialSyndromeRepeat | src/algorithms/algorithm_utils.rs:49-59 | an index chosen twice cancels |
| Syndrome.PartialSyndromeIsSyndrome | src/algorithms/algorithm_utils.rs:49-59 | for distinct in-range indices, all rows and a 0/1 matrix, this is the syndrome of the indicator vector |
| Syndrome.CombinationsCount | src/algorithms/algorithm_utils.rs:44-46 | there are C(len, k) subsets |
| Syndrome.CombinationsEdges | src/algorithms/algorithm_utils.rs:44-46 | none when k > len, one empty subset when k = 0 |
| Syndrome.CombinationsSound | src/algorithms/algorithm_utils.rs:44-46 | every subset has k entries and is a subsequence of the input |
| Syndrome.CombinationsComplete | src/algorithms/algorithm_utils.rs:44-46 | every subsequence of length k is yielded |
| Codes.Generator | src/utils.rs:14-22 | G = [I_k \| P] is k × (k + m) |
| Codes.ParityCheck | src/utils.rs:25-33 | H = [Pᵀ \| I_m] is m × (k + m) |
| Codes.SystematicOrthogonal | src/utils.rs:6-36 | every row of G has zero syndrome under H, for every block P |
| Codes.SystematicOrthogonalMod2 | src/utils.rs:6-36 | the same under the mod-2 syndrome, for a 0/1 block |
| Codes.GenerateRandomCode | src/utils.rs:6-36 | requires k < n (the assert); the index loops build exactly `Generator(p)` and `ParityCheck(p)` |
| Codes.FillGenerator | src/utils.rs:14-22 | the G loops build `Generator(p)` |
| Codes.FillParityCheck | src/utils.rs:25-33 | the H loops build `ParityCheck(p)` |
| Codes.ConvertToSystematic | src/codes/code_utils.rs:3-27 | requires m ≤ n; H keeps the left k columns and puts I_m on the right; G is [I_k \| (left block)ᵀ] |
| Codes.ConvertIgnoresRight | src/codes/code_utils.rs:13-19 | input columns k..n do not affect the output |
| Codes.ConvertOrthogonal | src/codes/code_utils.rs:13-26 | every row of the output G has zero syndrome under the output H |
| Codes.ConvertChangesCode | src/codes/code_utils.rs:7-10 | without elimination the output H need not define the input's code (h = [1 0]) |
| Codes.PaddedBits | src/code_generator.rs:70 | the padded binary form of v < 2^width is exactly its width bits, MSB first |
| Codes.HammingColumn | src/code_generator.rs:65-74 | column `col` of the initial H is the m-bit binary form of col + 1, MSB in row 0, when col + 1 < 2^m |
| Codes.GenerateHammingCode | src/code_generator.rs:65-89 | the outputs are the systematic rearrangement of the binary-column matrix, so G·Hᵀ ≡ 0 follows from `ConvertOrthogonal` |
| Goppa.GoppaParityShape | src/codes/goppa.rs:63-101 | the matrix has t·m rows and n columns, all entries 0 or 1 |
| Goppa.GoppaParityLayout | src/codes/goppa.rs:74-97 | rows i·m .. i·m + m − 1 of column j hold bits 0 .. m − 1, LSB first, of p_i · g(L_j)⁻¹ with p_0 = 1 and p_(i+1) = p_i · L_j |
| Goppa.GenerateGoppaParityMatrix | src/codes/goppa.rs:63-101 | requires n support entries, none a root of g (the index and the assert in `inverse`); the loops build `GoppaParity` |
| Goppa.WriteColumn | src/codes/goppa.rs:76-97 | the per-column loops write column j's spread bits and nothing else |
| Goppa.HasRootIn | src/codes/goppa.rs:19-27 | the scan reports a root exactly when the support has one |
| Goppa.CollectNonRoots | src/codes/goppa.rs:44-53 | the fallback loop keeps exactly the non-roots, in order |
| Goppa.NonRootsKeepsAll | src/codes/goppa.rs:44-53 | nothing is dropped from a root-free list, and something is dropped from a list with a root |
| Goppa.RetryPolys | src/codes/goppa.rs:15-37 | at most 10 retries; every rejected polynomial has a root in the support; an accepted one has none |
| Goppa.Fallback | src/codes/goppa.rs:39-60 | after the retries, a fresh polynomial and the non-roots of a fresh support, or the panic when fewer than n remain |
| Goppa.GenerateValidGoppaParams | src/codes/goppa.rs:6-61 | only root-free supports are returned; the first path returns the support unchanged; the fallback returns exactly n elements |
| GoppaCode.FirstRoot | src/code_generator.rs:119-139 | the index of the first root of g in the support, or the length when there is none |
| GoppaCode.RepairSupport | src/code_generator.rs:116-139 | the repaired support keeps its length, stays distinct and non-zero, and is root-free when the draws suffice; the draws can run out only when the initial support has a root, and a root-free support comes back unchanged |
| GoppaCode.DrawFresh | src/code_generator.rs:129-134 | the draw loop stops at the first value not in the support, or reports that the draws ran out |
| GoppaCode.GenerateGoppaCode | src/code_generator.rs:91-147 | `Err` exactly when k > n − m·t; a code is built only when n < 2^m, with a root-free support of n distinct non-zero elements, a parity matrix of at most n rows, and the systematic outputs; `OutOfDraws` only when g has a root in the drawn support; for n ≥ 2^m a root-free support of all 2^m − 1 elements ends in the `support[j]` panic of src/codes/goppa.rs:76 (`ShortSupport`) |
| GoppaCode.ParityRows | src/code_generator.rs:98-107 | once the parameter check passed, the m·t parity rows fit in the n columns |
| GoppaCode.RepairStarves | src/code_generator.rs:129-134 | with n = 2^m − 1 every value the repair loop can draw is already in the support |
| GoppaCode.RepairStarvesExample | src/code_generator.rs:96-134 | n = 7, t = 1 passes the check, and g = x + c with c in the support makes the repair loop spin |
| GoppaCode.CeilLog2 | src/code_generator.rs:96 | the computed degree is the least m with n ≤ 2^m |
| GoppaCode.DegreeAbove | src/code_generator.rs:96 | the degree the comment asks for is the least m with 2^m > n |
| GoppaCode.DegreeAboveShift | src/code_generator.rs:96 | the intended degree of n is the computed degree of n + 1 |
| GoppaCode.CeilLog2ShortSupport | src/code_generator.rs:96-113 | for n = 8 the computed m = 3 passes the check, but GF(8) has only 7 non-zero elements, so no support is root-free over all 8 positions |
| GoppaCode.DegreeAboveFullSupport | src/code_generator.rs:96-113 | with the intended degree every n in 3..255 gets a valid field and a full support of n elements |
| BinaryGoppa.ModularInverse | src/codes.rs:121-134 | the loop computes `InverseLoop` and terminates (`b % a < a`); it returns 0 for x = 0 |
| BinaryGoppa.InverseModTwo | src/codes.rs:121-134 | modulo 2 the result is x mod 2, except 1 for x = 2 |
| BinaryGoppa.CodeMatrix | src/codes.rs:107-119 | a t × n matrix of `(g_i · inv(L_j)) mod 2` |
| BinaryGoppa.CodeMatrixBinary | src/codes.rs:107-119 | every entry is 0 or 1 |
| BinaryGoppa.CodeEntryClosedForm | src/codes.rs:107-119 | for 0/1 coefficients, entry (i, j) is 1 exactly when g_i = 1 and L_j is odd or 2 |
| BinaryGoppa.GenerateGoppaCodeMatrix | src/codes.rs:107-119 | the nested loops build `CodeMatrix` |
| BinaryGoppa.GeneratorFromParity | src/codes.rs:136-144 | requires m = n − m (the `unwrap`); G = [I_k \| left block of h] |
| BinaryGoppa.GeneratorNotOrthogonal | src/codes.rs:136-144 | the block is not transposed, so G need not be orthogonal to h (h = [1 0]) |
| BinaryGoppa.SupportLength | src/codes.rs:98-99 | the support has n elements exactly when n ≤ 255 |
| BinaryGoppa.SupportWraps | src/codes.rs:98-99 | for n = 256 the support is empty and the matrix all zero |
| BinaryGoppa.GenerateGoppaCode | src/codes.rs:88-105 | requires n = 2t (the `concatenate` unwrap); a binary t × n parity matrix and G built from it |
| Patterson.SyndromePoly | src/algorithms/patterson.rs:10-46 | t = len(g) − 1 coefficients |
| Patterson.ComputeSyndromePolynomial | src/algorithms/patterson.rs:10-46 | the loops compute `SyndromePoly`; `inverse` is reached only with a non-zero g(x) |
| Patterson.AddContribution | src/algorithms/patterson.rs:37-41 | the inner loop XORs `inv · x^j` into coefficient j |
| Patterson.SyndromeOfNoErrors | src/algorithms/patterson.rs:10-46 | a received vector without ones gives the zero syndrome |
| Patterson.SyndromeDisjointUnion | src/algorithms/patterson.rs:10-46 | the syndrome of two disjoint 0/1 patterns together is the XOR of their syndromes, so the order of accumulation does not matter |
| Patterson.ExtendedSyndrome | src/algorithms/patterson.rs:231-254 | length max(len, 2t), the original entries first; the extra entries are 0 for t ≤ 2 and the fold `ExtraFold` for t > 2 |
| Patterson.ExtendSyndrome | src/algorithms/patterson.rs:231-254 | the resize and nested loops compute `ExtendedSyndrome` |
| Patterson.ExtraEntry | src/algorithms/patterson.rs:244-250 | the `j` loop computes the fold of products `S_j · S_(i−j)` with in-range indices |
| Patterson.BmStepInvariant | src/algorithms/patterson.rs:62-147 | each step keeps the LFSR invariant: `connection_poly[0]` stays 1, the last discrepancy is non-zero, and the length stays ≤ n |
| Patterson.BmUpTo | src/algorithms/patterson.rs:62-147 | the invariant holds after every number of steps |
| Patterson.Shifted | src/algorithms/patterson.rs:84-93 | the shifted copy of `prev`, every coefficient scaled by the factor |
| Patterson.ComputeDiscrepancy | src/algorithms/patterson.rs:63-70 | the discrepancy loop computes `DiscrepancyFold` |
| Patterson.ShiftScale | src/algorithms/patterson.rs:84-93 | the scaling loop computes `Shifted` |
| Patterson.BmTurn | src/algorithms/patterson.rs:71-147 | both branches of the step compute `BmStep` |
| Patterson.RunLfsr | src/algorithms/patterson.rs:62-147 | the `for n in 0..2t` loop computes `BmUpTo` |
| Patterson.BmResult | src/algorithms/patterson.rs:150-159 | the reversed connection polynomial has 1 to t + 1 coefficients, with a leading 1 unless it was cut |
| Patterson.BerlekampMassey | src/algorithms/patterson.rs:49-160 | the method computes `BmResult` |
| Patterson.EvaluatePolyHorner | src/algorithms/patterson.rs:189-195 | 0 on the empty polynomial, `evaluate_poly` on every other one |
| Patterson.RootPositionsExact | src/algorithms/patterson.rs:163-187 | the positions are increasing, in range, roots of sigma, and all the roots |
| Patterson.FindRoots | src/algorithms/patterson.rs:163-187 | the loop computes `RootPositions`, `y1 == 0 \|\| y2 == 0` being `y1 == 0` |
| Patterson.RunPatterson | src/algorithms/patterson.rs:197-456 | an all-zero syndrome polynomial gives the zero vector; every other `Some` passed the explicit H-check |
| Patterson.CompleteErrors | src/algorithms/patterson.rs:291-343 | at most 10,000 combinations are checked; an answer passed the H-check and extends the found positions by a combination |
| Patterson.CompletionWeight | src/algorithms/patterson.rs:291-343 | a completion sets exactly t positions |
| Patterson.SingleErrorSearch | src/algorithms/patterson.rs:351-375 | an answer passed the H-check and has exactly one 1 |
| Patterson.PairSearch | src/algorithms/patterson.rs:376-409 | at most 10,000 pairs; an answer passed the H-check and has exactly two ones |
| Patterson.CombinationSearch | src/algorithms/patterson.rs:410-445 | fewer than 10,000 patterns; an answer passed the H-check and has exactly t ones |
| IsdCommon.Shuffled | src/algorithms/bjmm.rs:27-28 | a shuffle of `0..n` is a permutation of `0..n` |
| IsdCommon.ChooseMultiple | src/algorithms/bjmm.rs:47-50 | a sample has the requested size, distinct entries, all from the part |
| IsdCommon.XorAssign | src/algorithms/bjmm.rs:112-115 | the in-place XOR loop computes `Xor` |
| Prange.Arrangement | src/algorithms/prange.rs:20-26 | the index buffer stays a permutation of `0..n` across rounds |
| Prange.CandidateWeight | src/algorithms/prange.rs:27-33 | every candidate has length n and exactly `weight` ones |
| Prange.PrangeRound | src/algorithms/prange.rs:24-39 | one round re-shuffles the buffer, builds the candidate and compares its syndrome with the target |
| Prange.PrangeSound | src/algorithms/prange.rs:35-47 | an answer has the target syndrome, length n and exactly `weight` ones |
| Prange.PrangeExhausted | src/algorithms/prange.rs:22-59 | `None` exactly when none of the rounds hits |
| Prange.PrangeSkip | src/algorithms/prange.rs:24-50 | after missed rounds the answer is what the remaining rounds give |
| Prange.RunPrange | src/algorithms/prange.rs:8-60 | requires weight ≤ n once a round runs (`indices[..weight]`); the loop returns the first hit of the rounds or `None` |
| Prange.RunPrangeAttack | src/attacks/prange.rs:6-46 | 100 rounds; an answer has the received syndrome, length n and exactly `weight` ones |
| MeetInTheMiddle.SynLinear | src/algorithms/algorithm_utils.rs:29-42 | both syndromes the searches use are linear on 0/1 vectors |
| MeetInTheMiddle.SubsetMap | src/algorithms/stern.rs:36-56 | every entry is a subset stored under its own syndrome |
| MeetInTheMiddle.SubsetMapKeys | src/algorithms/stern.rs:36-56 | the keys are exactly the syndromes of the subsets |
| MeetInTheMiddle.SubsetMapLastWins | src/algorithms/stern.rs:44 | `insert` overwrites: a subset no later subset shares a key with is stored under its key |
| MeetInTheMiddle.BuildSubsetMap | src/algorithms/stern.rs:38-45 | the map-filling loop computes `SubsetMap` |
| MeetInTheMiddle.FindComplement | src/algorithms/stern.rs:58-82 | `None` exactly when no left key's complement is a right key; a hit is the union of the two stored subsets |
| MeetInTheMiddle.UnionSound | src/algorithms/stern.rs:64-72 | a left and a right subset whose keys XOR to the target join into a 0/1 vector with the target syndrome and exactly `leftWeight + rightWeight` ones |
| MeetInTheMiddle.MapHit | src/algorithms/stern.rs:58-82 | a left key whose complement is a right key is a collision |
| MeetInTheMiddle.MapMiss | src/algorithms/stern.rs:58-91 | with no complement key, nothing collides |
| MeetInTheMiddle.MeetInTheMiddle | src/algorithms/stern.rs:32-91 | `Some` exactly when some pair of subsets collides, for every map order; an answer has the target syndrome and `leftWeight + rightWeight` ones, with no recheck |
| MeetInTheMiddle.ZeroWeight | src/algorithms/stern.rs:36-80 | with weight 0 a pair collides exactly when the target syndrome is zero |
| MeetInTheMiddle.CeilHalf | src/algorithms/stern.rs:21 | ⌈n/2⌉ splits n into halves differing by at most one |
| MeetInTheMiddle.ShuffledHalves | src/algorithms/stern.rs:24-30 | the shuffled halves are permutations of `[0, m)` and `[m, n)` |
| MeetInTheMiddle.RunStern | src/algorithms/stern.rs:9-92 | `Some` exactly on a collision; an answer has the received syndrome and exactly `weight` ones |
| MeetInTheMiddle.RunLeeBrickell | src/algorithms/lee_brickell.rs:8-101 | the same for the caller's n, with odd weights split `weight/2` and `weight − weight/2` |
| MeetInTheMiddle.SternsAlgorithm | src/attacks/stern.rs:25-86 | halves at ⌊n/2⌋, both sizes weight/2: an answer has the mod-2 received syndrome and 2·⌊weight/2⌋ ones |
| BallCollision.SampleSizes | src/algorithms/ball_collision.rs:34-35 | the two sample sizes sum to at most the weight; the first is 0 exactly when weight < 2 or n < 2 |
| BallCollision.Inserted | src/algorithms/ball_collision.rs:38-61 | every entry of `list1` is a non-empty draw stored under its own partial syndrome |
| BallCollision.InsertedKeys | src/algorithms/ball_collision.rs:38-61 | a key is stored exactly when some non-empty draw has it |
| BallCollision.InsertedLastWins | src/algorithms/ball_collision.rs:60 | `insert` overwrites: the subset stored under a key is the last non-empty draw with it |
| BallCollision.BuildBallList | src/algorithms/ball_collision.rs:38-61 | `listSize` samples of the first part, `list1` equals `Inserted` of them, and it is empty for a zero sample size |
| BallCollision.Probe | src/algorithms/ball_collision.rs:64-114 | an answer passed the recheck, has length n, 0/1 entries and exactly size1 + size2 ones; an empty `list1` gives `None` |
| BallCollision.JoinWeight | src/algorithms/ball_collision.rs:92-102 | samples of the two disjoint halves join to exactly size1 + size2 ones |
| BallCollision.ProbeAll | src/algorithms/ball_collision.rs:64-116 | the second loop keeps the guarantees of each probe |
| BallCollision.BallRound | src/algorithms/ball_collision.rs:25-116 | one iteration, with disjoint halves; `None` when weight < 2 or n < 2 |
| BallCollision.RunBallCollision | src/algorithms/ball_collision.rs:10-127 | at most `MAX_ITERATIONS` iterations, then `None`; an answer has the received syndrome and weight ≤ `weight`; weight < 2 or n < 2 always gives `None` |
| BallCollision.RunBallCollisionAttack | src/attacks/ball_collision.rs:7-116 | the same with caps 100 and 1000 |
| Bjmm.Weights | src/algorithms/bjmm.rs:38-41 | w1 = w2 = w3 = weight/4 and w4 is the rest, summing to the weight |
| Bjmm.Sizes | src/algorithms/bjmm.rs:47-48 | each sample size is clipped to its part and its weight, and they sum to at most the weight |
| Bjmm.QuartersPartition | src/algorithms/bjmm.rs:31-35 | the four parts partition `0..n` |
| Bjmm.PushedBuckets | src/algorithms/bjmm.rs:54-57 | `push` keeps everything: a key is present exactly when some draw has it, and its bucket is the draws with that key, in order |
| Bjmm.PushStep | src/algorithms/bjmm.rs:52-57 | one push extends `Pushed` by the draw and keeps the buckets' invariant |
| Bjmm.BuildBuckets | src/algorithms/bjmm.rs:45-58 | `listSize` samples of a part, and the list equals `Pushed` of them |
| Bjmm.ExtendPrefix | src/algorithms/bjmm.rs:139-146 | adding a subset of the next part keeps the chosen indices distinct, in range and clear of the later parts |
| Bjmm.SearchProduct | src/algorithms/bjmm.rs:133-163 | an answer passed the recheck, with length n, 0/1 entries, and the distinct indices of one subset per part |
| Bjmm.FourWay | src/algorithms/bjmm.rs:133-150 | where four keys of the lists XOR to the target, one subset from each of their buckets joins to an index list whose partial syndrome is the target, which is the full syndrome of its indicator for a 0/1 matrix |
| Bjmm.MatchC | src/algorithms/bjmm.rs:112-165 | for every map order, an answer passed the recheck and has `Sum(sizes)` ones, and it comes from one bucket per list whose four keys (`rep_a`, `rep_b`, `rep_c`, `needed_rep_d`) XOR to the target |
| Bjmm.MatchB | src/algorithms/bjmm.rs:110-166 | the same one level up |
| Bjmm.MatchA | src/algorithms/bjmm.rs:109-167 | the same for the whole matching |
| Bjmm.BjmmRound | src/algorithms/bjmm.rs:26-167 | an answer of one iteration has the target syndrome and weight ≤ `weight` |
| Bjmm.RunBjmm | src/algorithms/bjmm.rs:10-178 | at most `MAX_ITERATIONS` iterations, then `None`; an answer has the received syndrome and weight ≤ `weight` |
| Bjmm.RunBjmmAttack | src/attacks/bjmm.rs:7-165 | the same with caps 100 and 256 |

## Left out

- The field degree `(n as f64).log2().ceil()` (src/code_generator.rs:96, src/codes/goppa.rs:7) is floating point. m is a parameter, and `CeilLog2` states the value the formula has.
- Random numbers are parameters or nondeterministic choices. The model makes no claim about their distribution.
- The `Vec` and `Array2` updates in place are modelled on values (sequences and the `Matrix` datatype). Nothing in the core aliases them.
- The subtraction `n - m*t` in `generate_goppa_code` would underflow and panic as `usize` in debug builds. Here it is an integer, and a negative value gives `Err`.
- GoppaCode.GenerateGoppaCode: the support-repair `loop` keeps drawing until it finds a value outside the support. The model takes the draws as a finite list and returns `OutOfDraws` when they run out, which the source never returns. For n ≥ 2^m − 1 the source can spin forever (`RepairStarves`).
- GoppaCode.GenerateGoppaCode: it draws its support with the corrected `FiniteField.RandomSupport` (see Findings). At m = 8 with n ≥ 1 it therefore goes on where the source's `random_support` call panics.
- Goppa.GenerateValidGoppaParams: it draws its support with the corrected `FiniteField.RandomSupport` (see Findings). At m = 8 with n ≥ 1 it therefore returns parameters where the source's first `random_support` call panics.
- Goppa.Fallback: it draws its support with the corrected `FiniteField.RandomSupport` (see Findings). At m = 8 with n ≥ 1 it therefore filters a support of up to 255 elements where the source's second `random_support` call panics.
- Timing, memory metrics and `println!` output are left out.
- MMT is left out. Its work is done by functions that no shown file defines.
- Benchmarks, the CLI, the bulk runner and `algorithm_runner.rs` are left out. The `generate_code` dispatchers are left out too.
- The order of `HashMap` iteration is not modelled. Every property holds for every order.
- Syndrome.SyndromeMod2: `h.dot(..)` on `u8` is a wrapping sum here (`RawDot` on `bv8`), as in release builds, and the wrap keeps the parity. The debug-build panic when a row sum passes 255 is not modelled.
- Syndrome.ValidateSyndrome: the same wrapping `h.dot(..)` sum; the debug-build overflow panic is not modelled.
- BinaryGoppa.ModularInverse: `q * u` is computed on `u8` and wraps modulo 256, which the model keeps (bytes are `bv8`). The panic a debug build raises on that overflow is not modelled.
- `types::GoppaParams` and the `FiniteField` struct are not part of this model. They are given as datatypes holding the fields the code reads.
- BallCollision.RunBallCollision: requires `n <= h.cols` whenever h has rows. That is stricter than the source, which only panics when a sampled index is out of range.
- BallCollision.RunBallCollisionAttack: the same stricter `n <= h.cols`, inherited from the runner it calls.
- Bjmm.RunBjmm: the same stricter `n <= h.cols` as Ball-Collision.
- Bjmm.RunBjmmAttack: the same stricter `n <= h.cols`, inherited from the runner it calls.
- BallCollision.RunBallCollision: the `rounds` out-parameter only counts iterations. It is a modelling device for stating the iteration cap. The same holds for Bjmm.RunBjmm.
- BallCollision.RunBallCollision: only soundness is stated. Because the draws are nondeterministic, nothing is claimed about when a solution is found.
- BallCollision.RunBallCollisionAttack: only soundness is stated, as for the runner it calls.
- Bjmm.RunBjmm: only soundness is stated, as for Ball-Collision.
- Bjmm.RunBjmmAttack: only soundness is stated, as for the runner it calls.
- Bjmm.PushedBuckets: the key is `Representation`, the partial syndrome where it is defined and `[]` otherwise. The `[]` case never arises from the searches, where every sample is in range.
- Patterson.RunPatterson: decoding correctness is not stated. The arithmetic is not a true field, so only the H-check soundness and the shapes are proved.
- FiniteField.BitPolynomialDivide: the shift `1 << (b_deg + i)` uses the source degrees, with their +16 offset. It is modelled as the masked shift that release builds perform; the debug-mode shift-overflow panic is not modelled.

## Findings

| source | as written | input that shows it | evidently intended | confidence | as-written member | corrected member |
|---|---|---|---|---|---|---|
| src/codes/polynomial_utils.rs:160 | `(1..field_size as u8)` casts 256 to 0 in GF(2^8), so the candidate range is empty and `all_elements[0..real_size]` panics | m = 8, any size ≥ 1 | all 255 non-zero field elements as candidates | not executed | FiniteField.RandomSupportEmptyAtEight | FiniteField.RandomSupport |
| src/code_generator.rs:96 | `log2().ceil()` gives the least m with n ≤ 2^m, so for n a power of two the field has only n − 1 non-zero elements and no root-free support of n elements exists | n = 8, k = 1, t = 1 | the comment's least m with 2^m > n | not executed | GoppaCode.CeilLog2ShortSupport | GoppaCode.DegreeAboveFullSupport |
