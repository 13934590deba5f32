/** Stern's and Lee–Brickell's decoders: `run_stern_algorithm` and
    `run_lee_brickell_algorithm` of src/algorithms, and `sterns_algorithm` and
    `run_lee_brickell_algorithm` of src/attacks. All four split the positions
    into a left and a right half, key every subset of a fixed size of each half
    by its syndrome in a hash map (`insert`, so the last subset of a syndrome
    wins), and return the union of the first left/right pair whose syndromes
    XOR to the target. None of them checks the union's syndrome again: that it
    is the target follows from the linearity of the syndrome and the halves
    being disjoint. The iteration order of the left map is chosen
    nondeterministically. */
module MeetInTheMiddle {
  import opened Gf2
  import opened Syndrome
  import opened IsdCommon

  /** Which `calculate_syndrome` a copy imports: the XOR-fold of
      algorithm_utils.rs and attack_utils.rs, or the `(h · v) mod 2` of
      src/utils.rs, which asserts that the widths agree. */
  datatype SyndromeKind = XorFold | ModTwo

  predicate Fits(kind: SyndromeKind, v: seq<Byte>, h: Matrix) {
    kind.ModTwo? ==> |v| == h.cols
  }

  function Syn(kind: SyndromeKind, v: seq<Byte>, h: Matrix): (s: seq<Byte>)
    requires h.Valid() && Fits(kind, v, h)
    ensures |s| == h.rows
  {
    match kind
    case XorFold => CalculateSyndrome(v, h)
    case ModTwo => SyndromeMod2(v, h)
  }

  /** Both syndromes are linear on 0/1 vectors of equal length. */
  lemma SynLinear(kind: SyndromeKind, h: Matrix, a: seq<Byte>, b: seq<Byte>)
    requires h.Valid() && |a| == |b| && Fits(kind, a, h) && IsBinary(a) && IsBinary(b)
    ensures Syn(kind, Xor(a, b), h) == Xor(Syn(kind, a, h), Syn(kind, b, h))
  {
    if kind.XorFold? {
      SyndromeLinear(h, a, b);
    } else {
      SyndromeMod2Linear(h, a, b);
    }
  }

  // ---------------------------------------------------------------------------
  // The subset maps
  // ---------------------------------------------------------------------------

  /** The vectors are n long, and n is h's width for the modulo-2 syndrome. */
  predicate Keyable(kind: SyndromeKind, h: Matrix, n: nat) {
    h.Valid() && (kind.ModTwo? ==> n == h.cols)
  }

  /** The key of a subset: the syndrome of the vector with ones at its indices. */
  function Key(kind: SyndromeKind, h: Matrix, n: nat, subset: seq<nat>): (k: seq<Byte>)
    requires Keyable(kind, h, n)
    ensures |k| == h.rows
  {
    Syn(kind, Indicator(n, Elems(subset)), h)
  }

  /** `map.insert(syndrome, subset)` for every subset in turn. Every entry is a
      subset stored under its own key. */
  function SubsetMap(kind: SyndromeKind, h: Matrix, n: nat, subsets: seq<seq<nat>>): (m: map<seq<Byte>, seq<nat>>)
    requires Keyable(kind, h, n)
    ensures forall key | key in m :: m[key] in subsets && Key(kind, h, n, m[key]) == key
    decreases |subsets|
  {
    if |subsets| == 0 then map[]
    else
      var last := subsets[|subsets| - 1];
      SubsetMap(kind, h, n, subsets[..|subsets| - 1])[Key(kind, h, n, last) := last]
  }

  /** The keys are exactly the keys of the subsets. */
  lemma {:induction false} SubsetMapKeys(kind: SyndromeKind, h: Matrix, n: nat, subsets: seq<seq<nat>>, key: seq<Byte>)
    requires Keyable(kind, h, n)
    ensures key in SubsetMap(kind, h, n, subsets) <==>
      exists i | 0 <= i < |subsets| :: Key(kind, h, n, subsets[i]) == key
    decreases |subsets|
  {
    if |subsets| > 0 {
      var init := subsets[..|subsets| - 1];
      SubsetMapKeys(kind, h, n, init, key);
      if exists i | 0 <= i < |subsets| :: Key(kind, h, n, subsets[i]) == key {
        var i :| 0 <= i < |subsets| && Key(kind, h, n, subsets[i]) == key;
        if i < |init| {
          assert init[i] == subsets[i];
        }
      }
    }
  }

  /** `insert` overwrites: a subset that no later subset shares a key with is
      the one stored under its key. */
  lemma {:induction false} SubsetMapLastWins(kind: SyndromeKind, h: Matrix, n: nat, subsets: seq<seq<nat>>, i: nat)
    requires Keyable(kind, h, n) && i < |subsets|
    requires forall j | i < j < |subsets| :: Key(kind, h, n, subsets[j]) != Key(kind, h, n, subsets[i])
    ensures Key(kind, h, n, subsets[i]) in SubsetMap(kind, h, n, subsets)
    ensures SubsetMap(kind, h, n, subsets)[Key(kind, h, n, subsets[i])] == subsets[i]
    decreases |subsets|
  {
    if i < |subsets| - 1 {
      var init := subsets[..|subsets| - 1];
      assert init[i] == subsets[i];
      SubsetMapLastWins(kind, h, n, init, i);
    }
  }

  /** Every subset lists indices below n. */
  predicate SubsetsBelow(subsets: seq<seq<nat>>, n: nat) {
    forall i | 0 <= i < |subsets| :: AllBelow(subsets[i], n)
  }

  /** The `for subset in generate_subsets(..) { .. map.insert(syndrome, subset); }`
      loop. */
  method BuildSubsetMap(kind: SyndromeKind, h: Matrix, n: nat, subsets: seq<seq<nat>>)
    returns (m: map<seq<Byte>, seq<nat>>)
    requires Keyable(kind, h, n) && SubsetsBelow(subsets, n)
    ensures m == SubsetMap(kind, h, n, subsets)
  {
    m := map[];
    for t := 0 to |subsets|
      invariant m == SubsetMap(kind, h, n, subsets[..t])
    {
      var subset := subsets[t];
      var candidate := MarkPositions(n, subset);
      var syndrome := Syn(kind, candidate, h);
      assert subsets[..t + 1][..t] == subsets[..t];
      m := m[syndrome := subset];
    }
    assert subsets[..|subsets|] == subsets;
  }

  // ---------------------------------------------------------------------------
  // The search
  // ---------------------------------------------------------------------------

  /** Some left subset and some right subset have syndromes that XOR to the
      target. */
  predicate Collides(kind: SyndromeKind, h: Matrix, n: nat, target: seq<Byte>,
                     lefts: seq<seq<nat>>, rights: seq<seq<nat>>)
    requires Keyable(kind, h, n)
  {
    exists i, j | 0 <= i < |lefts| && 0 <= j < |rights| ::
      Xor(target, Key(kind, h, n, lefts[i])) == Key(kind, h, n, rights[j])
  }

  /** `for (left_syndrome, left_subset) in &left_map { .. }`: the complement of
      each left key is looked up in the right map, and the first hit is turned
      into a vector with the left subset's ones and then the right subset's. */
  method FindComplement(kind: SyndromeKind, h: Matrix, n: nat, target: seq<Byte>,
                        leftMap: map<seq<Byte>, seq<nat>>, rightMap: map<seq<Byte>, seq<nat>>)
    returns (r: Option<seq<Byte>>)
    requires h.Valid() && |target| == h.rows
    requires forall key | key in leftMap :: |key| == h.rows && AllBelow(leftMap[key], n)
    requires forall key | key in rightMap :: AllBelow(rightMap[key], n)
    ensures r.None? <==> forall key | key in leftMap :: Xor(target, key) !in rightMap
    ensures r.Some? ==> exists key | key in leftMap && Xor(target, key) in rightMap ::
      r.value == Indicator(n, Elems(leftMap[key]) + Elems(rightMap[Xor(target, key)]))
  {
    var remaining := leftMap.Keys;
    while remaining != {}
      invariant remaining <= leftMap.Keys
      invariant forall key | key in leftMap.Keys - remaining :: Xor(target, key) !in rightMap
      decreases |remaining|
    {
      var leftSyndrome :| leftSyndrome in remaining;
      remaining := remaining - {leftSyndrome};
      var complement := XorAssign(target, leftSyndrome);
      if complement in rightMap {
        var candidate := MarkPositions(n, leftMap[leftSyndrome]);
        candidate := SetOnes(candidate, rightMap[complement]);
        assert candidate == Indicator(n, Elems(leftMap[leftSyndrome]) + Elems(rightMap[complement]));
        return Some(candidate);
      }
    }
    return None;
  }

  /** The two halves: no repeats, indices below n, no index in both. */
  predicate Halves(left: seq<nat>, right: seq<nat>, n: nat) {
    Distinct(left) && Distinct(right) && AllBelow(left, n) && AllBelow(right, n) && Elems(left) !! Elems(right)
  }

  lemma CombinationsBelow(s: seq<nat>, k: nat, n: nat)
    requires AllBelow(s, n)
    ensures SubsetsBelow(Combinations(s, k), n)
  {
    forall i | 0 <= i < |Combinations(s, k)| ensures AllBelow(Combinations(s, k)[i], n) {
      CombinationFrom(s, k, Combinations(s, k)[i]);
    }
  }

  /** The union of a left and a right subset whose keys XOR to the target has
      the target syndrome and exactly `leftWeight + rightWeight` ones. */
  lemma UnionSound(kind: SyndromeKind, h: Matrix, n: nat, target: seq<Byte>, left: seq<nat>, right: seq<nat>,
                   leftWeight: nat, rightWeight: nat, l: seq<nat>, rt: seq<nat>)
    requires Keyable(kind, h, n) && Halves(left, right, n) && |target| == h.rows
    requires l in Combinations(left, leftWeight) && rt in Combinations(right, rightWeight)
    requires Xor(target, Key(kind, h, n, l)) == Key(kind, h, n, rt)
    ensures Syn(kind, Indicator(n, Elems(l) + Elems(rt)), h) == target
    ensures |Indicator(n, Elems(l) + Elems(rt))| == n && IsBinary(Indicator(n, Elems(l) + Elems(rt)))
    ensures CountOnes(Indicator(n, Elems(l) + Elems(rt))) == leftWeight + rightWeight
  {
    CombinationFrom(left, leftWeight, l);
    CombinationFrom(right, rightWeight, rt);
    assert Elems(l) !! Elems(rt) by {
      forall x | x in Elems(l) ensures x !in Elems(rt) {
        assert x in Elems(left);
      }
    }
    IndicatorDisjointUnion(n, Elems(l), Elems(rt));
    SynLinear(kind, h, Indicator(n, Elems(l)), Indicator(n, Elems(rt)));
    XorCancel(target, Key(kind, h, n, l));
    DistinctElems(l);
    DistinctElems(rt);
    forall x | x in Elems(l) + Elems(rt) ensures x < n {
      if x in Elems(l) {
        assert x in left;
      } else {
        assert x in right;
      }
    }
    IndicatorWeight(n, Elems(l) + Elems(rt));
  }

  /** A left key whose complement is a right key is a collision. */
  lemma MapHit(kind: SyndromeKind, h: Matrix, n: nat, target: seq<Byte>, lefts: seq<seq<nat>>, rights: seq<seq<nat>>,
               key: seq<Byte>)
    requires Keyable(kind, h, n)
    requires key in SubsetMap(kind, h, n, lefts) && Xor(target, key) in SubsetMap(kind, h, n, rights)
    ensures Collides(kind, h, n, target, lefts, rights)
  {
    var l := SubsetMap(kind, h, n, lefts)[key];
    var rt := SubsetMap(kind, h, n, rights)[Xor(target, key)];
    var i :| 0 <= i < |lefts| && lefts[i] == l;
    var j :| 0 <= j < |rights| && rights[j] == rt;
    assert Xor(target, Key(kind, h, n, lefts[i])) == Key(kind, h, n, rights[j]);
  }

  /** When no left key's complement is a right key, nothing collides. */
  lemma MapMiss(kind: SyndromeKind, h: Matrix, n: nat, target: seq<Byte>, lefts: seq<seq<nat>>, rights: seq<seq<nat>>)
    requires Keyable(kind, h, n)
    requires forall key | key in SubsetMap(kind, h, n, lefts) :: Xor(target, key) !in SubsetMap(kind, h, n, rights)
    ensures !Collides(kind, h, n, target, lefts, rights)
  {
    if Collides(kind, h, n, target, lefts, rights) {
      var i, j :| 0 <= i < |lefts| && 0 <= j < |rights| &&
        Xor(target, Key(kind, h, n, lefts[i])) == Key(kind, h, n, rights[j]);
      SubsetMapKeys(kind, h, n, lefts, Key(kind, h, n, lefts[i]));
      SubsetMapKeys(kind, h, n, rights, Key(kind, h, n, rights[j]));
    }
  }

  /** The core shared by the four copies, for the target syndrome the caller
      computed from the received vector: build both maps over the subsets of
      the given sizes and search them. An answer exists exactly when some left
      and right subset collide, and an answer has the target syndrome and
      exactly `leftWeight + rightWeight` ones. */
  method MeetInTheMiddle(kind: SyndromeKind, target: seq<Byte>, h: Matrix, n: nat,
                         left: seq<nat>, right: seq<nat>, leftWeight: nat, rightWeight: nat)
    returns (r: Option<seq<Byte>>)
    requires Keyable(kind, h, n) && |target| == h.rows && Halves(left, right, n)
    ensures r.Some? <==> Collides(kind, h, n, target, Combinations(left, leftWeight), Combinations(right, rightWeight))
    ensures r.Some? ==> |r.value| == n && IsBinary(r.value)
    ensures r.Some? ==> CountOnes(r.value) == leftWeight + rightWeight
    ensures r.Some? ==> Syn(kind, r.value, h) == target
  {
    var lefts := Combinations(left, leftWeight);
    var rights := Combinations(right, rightWeight);
    CombinationsBelow(left, leftWeight, n);
    CombinationsBelow(right, rightWeight, n);
    var leftMap := BuildSubsetMap(kind, h, n, lefts);
    var rightMap := BuildSubsetMap(kind, h, n, rights);
    r := FindComplement(kind, h, n, target, leftMap, rightMap);
    if r.Some? {
      ghost var key :| key in leftMap && Xor(target, key) in rightMap &&
        r.value == Indicator(n, Elems(leftMap[key]) + Elems(rightMap[Xor(target, key)]));
      MapHit(kind, h, n, target, lefts, rights, key);
      UnionSound(kind, h, n, target, left, right, leftWeight, rightWeight, leftMap[key], rightMap[Xor(target, key)]);
    } else {
      MapMiss(kind, h, n, target, lefts, rights);
    }
  }

  /** With weight 0 both maps hold only the empty subset under the zero
      syndrome, so a pair collides exactly when the target is zero; the answer
      then has no ones, so it is the zero vector. */
  lemma ZeroWeight(kind: SyndromeKind, target: seq<Byte>, h: Matrix, n: nat, left: seq<nat>, right: seq<nat>)
    requires Keyable(kind, h, n) && |target| == h.rows
    ensures Collides(kind, h, n, target, Combinations(left, 0), Combinations(right, 0)) <==> target == Zeros(h.rows)
  {
    CombinationsEdges(left, 0);
    CombinationsEdges(right, 0);
    assert Elems<nat>([]) == {};
    assert Indicator(n, {}) == Zeros(n);
    if kind.XorFold? {
      SyndromeOfZero(h, n);
    } else {
      SyndromeMod2OfZero(h);
    }
    assert Key(kind, h, n, []) == Zeros(h.rows);
    if target == Zeros(h.rows) {
      assert Xor(target, Key(kind, h, n, Combinations(left, 0)[0])) == Key(kind, h, n, Combinations(right, 0)[0]);
    }
  }

  // ---------------------------------------------------------------------------
  // The four copies
  // ---------------------------------------------------------------------------

  /** ⌈n/2⌉, the size of the left half of src/algorithms/stern.rs and of both
      Lee–Brickell copies. */
  function CeilHalf(n: nat): (m: nat)
    ensures m <= n && n - m <= m <= n - m + 1
  {
    n / 2 + n % 2
  }

  lemma ShuffledHalves(left: seq<nat>, right: seq<nat>, m: nat, n: nat)
    requires m <= n && IsShuffleOf(left, 0, m) && IsShuffleOf(right, m, n)
    ensures Halves(left, right, n)
  {
    forall x | x in Elems(left) ensures x !in Elems(right) {
      var i :| 0 <= i < |left| && left[i] == x;
    }
  }

  /** `run_stern_algorithm(received, h, weight)` of src/algorithms/stern.rs: n is
      h's width, the left half is `0..⌈n/2⌉` shuffled and the right half the rest
      shuffled; subsets of size weight/2 on the left and weight − weight/2 on
      the right, so an answer has exactly `weight` ones. */
  method RunStern(received: seq<Byte>, h: Matrix, weight: nat, left: seq<nat>, right: seq<nat>)
    returns (r: Option<seq<Byte>>)
    requires h.Valid() && IsShuffleOf(left, 0, CeilHalf(h.cols)) && IsShuffleOf(right, CeilHalf(h.cols), h.cols)
    ensures r.Some? <==> Collides(XorFold, h, h.cols, CalculateSyndrome(received, h),
                                  Combinations(left, weight / 2), Combinations(right, weight - weight / 2))
    ensures r.Some? ==> |r.value| == h.cols && IsBinary(r.value) && CountOnes(r.value) == weight
    ensures r.Some? ==> CalculateSyndrome(r.value, h) == CalculateSyndrome(received, h)
  {
    ShuffledHalves(left, right, CeilHalf(h.cols), h.cols);
    var target := CalculateSyndrome(received, h);
    r := MeetInTheMiddle(XorFold, target, h, h.cols, left, right, weight / 2, weight - weight / 2);
  }

  /** `run_lee_brickell_algorithm(received, h, n, weight)` of
      src/algorithms/lee_brickell.rs and of src/attacks/lee_brickell.rs (the two
      agree): the same split with the caller's n, which only fixes the vector
      length the zip-truncating syndrome reads. With the even-weight check
      disabled an odd weight splits into weight/2 and weight − weight/2. */
  method RunLeeBrickell(received: seq<Byte>, h: Matrix, n: nat, weight: nat, left: seq<nat>, right: seq<nat>)
    returns (r: Option<seq<Byte>>)
    requires h.Valid() && IsShuffleOf(left, 0, CeilHalf(n)) && IsShuffleOf(right, CeilHalf(n), n)
    ensures r.Some? <==> Collides(XorFold, h, n, CalculateSyndrome(received, h),
                                  Combinations(left, weight / 2), Combinations(right, weight - weight / 2))
    ensures r.Some? ==> |r.value| == n && IsBinary(r.value) && CountOnes(r.value) == weight
    ensures r.Some? ==> CalculateSyndrome(r.value, h) == CalculateSyndrome(received, h)
  {
    ShuffledHalves(left, right, CeilHalf(n), n);
    var target := CalculateSyndrome(received, h);
    r := MeetInTheMiddle(XorFold, target, h, n, left, right, weight / 2, weight - weight / 2);
  }

  /** `sterns_algorithm(received, h, weight)` of src/attacks/stern.rs: halves
      `0..⌊n/2⌋` and the rest, both subset sizes weight/2, so an answer has
      2·⌊weight/2⌋ ones and an odd weight loses one; it uses the modulo-2
      syndrome of src/utils.rs, which asserts that `received` is n long. */
  method SternsAlgorithm(received: seq<Byte>, h: Matrix, weight: nat, left: seq<nat>, right: seq<nat>)
    returns (r: Option<seq<Byte>>)
    requires h.Valid() && |received| == h.cols
    requires IsShuffleOf(left, 0, h.cols / 2) && IsShuffleOf(right, h.cols / 2, h.cols)
    ensures r.Some? <==> Collides(ModTwo, h, h.cols, SyndromeMod2(received, h),
                                  Combinations(left, weight / 2), Combinations(right, weight / 2))
    ensures r.Some? ==> |r.value| == h.cols && IsBinary(r.value) && CountOnes(r.value) == 2 * (weight / 2)
    ensures r.Some? ==> SyndromeMod2(r.value, h) == SyndromeMod2(received, h)
  {
    ShuffledHalves(left, right, h.cols / 2, h.cols);
    var target := SyndromeMod2(received, h);
    r := MeetInTheMiddle(ModTwo, target, h, h.cols, left, right, weight / 2, weight / 2);
  }
}
