/** The BJMM-style search: `run_bjmm_algorithm` of src/algorithms/bjmm.rs and
    its older copy in src/attacks/bjmm.rs. Each iteration shuffles `0..n` into
    four parts, fills one list per part with random samples grouped under their
    partial syndromes (`entry(..).or_default().push(..)`, so every sample is
    kept), walks the key combinations in hash-map order and, where the fourth
    key completes the target, tries every combination of the four buckets,
    keeping a candidate only when its full syndrome is the target. */
module Bjmm {
  import opened Gf2
  import opened Syndrome
  import opened IsdCommon

  // ---------------------------------------------------------------------------
  // The four-way split
  // ---------------------------------------------------------------------------

  /** `part1 .. part4`: three slices of ⌊n/4⌋ shuffled indices and the rest. */
  function Quarters(indices: seq<nat>, n: nat): (parts: seq<seq<nat>>)
    requires |indices| == n
    ensures |parts| == 4
  {
    var quarter := n / 4;
    [indices[0..quarter], indices[quarter..2 * quarter], indices[2 * quarter..3 * quarter],
     indices[3 * quarter..n]]
  }

  /** `w1 = w2 = w3 = weight / 4` and `w4 = weight - w1 - w2 - w3`. */
  function Weights(weight: nat): (w: seq<nat>)
    ensures |w| == 4 && Sum(w) == weight
  {
    var quarter := weight / 4;
    var w := [quarter, quarter, quarter, weight - quarter - quarter - quarter];
    SumFour(w);
    w
  }

  lemma SumFour(s: seq<nat>)
    requires |s| == 4
    ensures Sum(s) == s[0] + s[1] + s[2] + s[3]
  {
    var s1 := s[1..];
    var s2 := s1[1..];
    var s3 := s2[1..];
    assert s3[1..] == [];
    assert Sum(s3) == s[3];
    assert Sum(s2) == s[2] + Sum(s3);
    assert Sum(s1) == s[1] + Sum(s2);
  }

  /** The sample sizes: each weight clipped to its part's length. */
  function Sizes(parts: seq<seq<nat>>, weights: seq<nat>): (sizes: seq<nat>)
    requires |parts| == 4 && |weights| == 4
    ensures |sizes| == 4 && Sum(sizes) <= Sum(weights)
    ensures forall k | 0 <= k < 4 :: sizes[k] <= |parts[k]| && sizes[k] <= weights[k]
  {
    var sizes := [Min(weights[0], |parts[0]|), Min(weights[1], |parts[1]|),
                  Min(weights[2], |parts[2]|), Min(weights[3], |parts[3]|)];
    SumFour(sizes);
    SumFour(weights);
    sizes
  }

  /** No index lies in two of the parts. */
  predicate Apart(parts: seq<seq<nat>>) {
    forall k, l | 0 <= k < l < |parts| :: Elems(parts[k]) !! Elems(parts[l])
  }

  /** Every part is a list of distinct indices below n. */
  predicate PartsBelow(parts: seq<seq<nat>>, n: nat) {
    forall k | 0 <= k < |parts| :: AllBelow(parts[k], n) && Distinct(parts[k])
  }

  /** Some part holds x. */
  predicate Covered(parts: seq<seq<nat>>, x: nat) {
    exists k | 0 <= k < |parts| :: x in parts[k]
  }

  /** The four parts of a shuffle of `0..n` partition `0..n`: their indices are
      distinct and below n, no two parts share one, and every index of `0..n`
      is in one of them. */
  lemma QuartersPartition(indices: seq<nat>, n: nat)
    requires IsPermutation(indices, n)
    ensures Apart(Quarters(indices, n)) && PartsBelow(Quarters(indices, n), n)
    ensures forall x | 0 <= x < n :: Covered(Quarters(indices, n), x)
  {
    var q := n / 4;
    var parts := Quarters(indices, n);
    QuartersApart(indices, n);
    SliceBelow(indices, n, 0, q);
    SliceBelow(indices, n, q, 2 * q);
    SliceBelow(indices, n, 2 * q, 3 * q);
    SliceBelow(indices, n, 3 * q, n);
    forall x | 0 <= x < n ensures Covered(parts, x) {
      QuarterOf(indices, n, x);
    }
  }

  lemma QuartersApart(indices: seq<nat>, n: nat)
    requires IsPermutation(indices, n)
    ensures Apart(Quarters(indices, n))
  {
    var q := n / 4;
    SlicesDisjoint(indices, 0, q, q, 2 * q);
    SlicesDisjoint(indices, 0, q, 2 * q, 3 * q);
    SlicesDisjoint(indices, 0, q, 3 * q, n);
    SlicesDisjoint(indices, q, 2 * q, 2 * q, 3 * q);
    SlicesDisjoint(indices, q, 2 * q, 3 * q, n);
    SlicesDisjoint(indices, 2 * q, 3 * q, 3 * q, n);
  }

  lemma QuarterOf(indices: seq<nat>, n: nat, x: nat)
    requires IsPermutation(indices, n) && x < n
    ensures Covered(Quarters(indices, n), x)
  {
    var q := n / 4;
    var parts := Quarters(indices, n);
    var p := PositionOf(indices, n, x);
    if p < q {
      InSlice(indices, n, 0, q, x);
      assert x in parts[0];
    } else if p < 2 * q {
      InSlice(indices, n, q, 2 * q, x);
      assert x in parts[1];
    } else if p < 3 * q {
      InSlice(indices, n, 2 * q, 3 * q, x);
      assert x in parts[2];
    } else {
      InSlice(indices, n, 3 * q, n, x);
      assert x in parts[3];
    }
  }

  // ---------------------------------------------------------------------------
  // The lists: every sample kept under its partial syndrome
  // ---------------------------------------------------------------------------

  /** The key a sample is filed under: `calculate_partial_syndrome(h, s, r)`
      over all rows (the empty key stands for samples the matrix cannot
      index, which never arise). */
  function Representation(h: Matrix, s: seq<nat>): seq<Byte> {
    if h.Valid() && PartialInRange(h, s, h.rows) then PartialSyndrome(h, s, h.rows) else []
  }

  /** The samples filed under `key`. */
  function HasKey(h: Matrix, key: seq<Byte>): seq<nat> -> bool {
    s => Representation(h, s) == key
  }

  /** A list after the given draws: each draw pushed onto the bucket of its
      representation. */
  function Pushed(h: Matrix, draws: seq<seq<nat>>): map<seq<Byte>, seq<seq<nat>>> {
    if |draws| == 0 then map[]
    else
      var m := Pushed(h, draws[..|draws| - 1]);
      var last := draws[|draws| - 1];
      var key := Representation(h, last);
      m[key := (if key in m then m[key] else []) + [last]]
  }

  /** `push` keeps everything: a key is present exactly when some draw has it,
      and its bucket is exactly the draws with that key, in drawing order. */
  lemma {:induction false} PushedBuckets(h: Matrix, draws: seq<seq<nat>>, key: seq<Byte>)
    ensures key in Pushed(h, draws) <==> exists i | 0 <= i < |draws| :: Representation(h, draws[i]) == key
    ensures key in Pushed(h, draws) ==> Pushed(h, draws)[key] == Filter(draws, HasKey(h, key))
  {
    if |draws| > 0 {
      var init := draws[..|draws| - 1];
      var last := draws[|draws| - 1];
      assert draws == init + [last];
      PushedBuckets(h, init, key);
      FilterSnoc(init, last, HasKey(h, key));
      if exists i | 0 <= i < |init| :: Representation(h, init[i]) == key {
        var i :| 0 <= i < |init| && Representation(h, init[i]) == key;
        assert draws[i] == init[i];
      } else {
        FilterNone(init, HasKey(h, key));
      }
      if exists i | 0 <= i < |draws| :: Representation(h, draws[i]) == key {
        var i :| 0 <= i < |draws| && Representation(h, draws[i]) == key;
        if i < |init| {
          assert init[i] == draws[i];
        }
      }
    }
  }

  /** What a list holds: every key is an r-byte partial syndrome and every
      subset in its bucket is a sample of the part with that partial
      syndrome. */
  predicate Buckets(h: Matrix, list: map<seq<Byte>, seq<seq<nat>>>, part: seq<nat>, size: nat)
    requires h.Valid()
  {
    forall key | key in list :: |key| == h.rows &&
      forall i | 0 <= i < |list[key]| ::
        IsSample(list[key][i], part, size) &&
        PartialInRange(h, list[key][i], h.rows) && PartialSyndrome(h, list[key][i], h.rows) == key
  }

  /** Pushing a sample onto the bucket of its partial syndrome extends
      `Pushed` by that draw and keeps the buckets' invariant. */
  lemma PushStep(h: Matrix, list: map<seq<Byte>, seq<seq<nat>>>, draws: seq<seq<nat>>, part: seq<nat>,
                 size: nat, s: seq<nat>)
    requires h.Valid() && list == Pushed(h, draws) && Buckets(h, list, part, size)
    requires IsSample(s, part, size) && PartialInRange(h, s, h.rows)
    ensures var key := PartialSyndrome(h, s, h.rows);
      var bucket := if key in list then list[key] else [];
      Pushed(h, draws + [s]) == list[key := bucket + [s]] &&
      Buckets(h, list[key := bucket + [s]], part, size)
  {
    assert (draws + [s])[..|draws|] == draws;
    var key := PartialSyndrome(h, s, h.rows);
    assert Representation(h, s) == key;
    var bucket := if key in list then list[key] else [];
    var next := list[key := bucket + [s]];
    forall k | k in next
      ensures |k| == h.rows && forall i | 0 <= i < |next[k]| ::
        IsSample(next[k][i], part, size) &&
        PartialInRange(h, next[k][i], h.rows) && PartialSyndrome(h, next[k][i], h.rows) == k
    {
      if k == key {
        forall i | 0 <= i < |next[k]|
          ensures IsSample(next[k][i], part, size) &&
            PartialInRange(h, next[k][i], h.rows) && PartialSyndrome(h, next[k][i], h.rows) == k
        {
          if i < |bucket| {
            assert next[k][i] == list[k][i];
          } else {
            assert next[k][i] == s;
          }
        }
      }
    }
  }

  /** One of the four list-building loops: `listSize` samples of the part, each
      pushed onto the bucket of its partial syndrome. */
  method BuildBuckets(h: Matrix, part: seq<nat>, size: nat, listSize: nat)
    returns (list: map<seq<Byte>, seq<seq<nat>>>, ghost draws: seq<seq<nat>>)
    requires h.Valid() && Distinct(part) && size <= |part| && (h.rows > 0 ==> AllBelow(part, h.cols))
    ensures |draws| == listSize && Samples(draws, part, size)
    ensures list == Pushed(h, draws)
    ensures Buckets(h, list, part, size)
  {
    list := map[];
    draws := [];
    for t := 0 to listSize
      invariant |draws| == t && Samples(draws, part, size)
      invariant list == Pushed(h, draws)
      invariant Buckets(h, list, part, size)
    {
      var selected := ChooseMultiple(part, size);
      SampleInRange(h, selected, part, size);
      var representation := CalculatePartialSyndrome(h, selected, h.rows);
      PushStep(h, list, draws, part, size, selected);
      draws := draws + [selected];
      var bucket := if representation in list then list[representation] else [];
      list := list[representation := bucket + [selected]];
    }
  }

  // ---------------------------------------------------------------------------
  // Trying every combination of four buckets
  // ---------------------------------------------------------------------------

  /** Every subset of group k is a sample of part k. */
  predicate Grouped(groups: seq<seq<seq<nat>>>, parts: seq<seq<nat>>, sizes: seq<nat>)
    requires |groups| == |parts| == |sizes|
  {
    forall k, i | 0 <= k < |groups| && 0 <= i < |groups[k]| :: IsSample(groups[k][i], parts[k], sizes[k])
  }

  /** The indices chosen so far lie in none of the parts still to come. */
  predicate Outside(prefix: seq<nat>, parts: seq<seq<nat>>) {
    forall k | 0 <= k < |parts| :: Elems(prefix) !! Elems(parts[k])
  }

  /** Appending a subset of the first part keeps the chosen indices distinct,
      below n and clear of the remaining parts. */
  lemma ExtendPrefix(n: nat, prefix: seq<nat>, groups: seq<seq<seq<nat>>>, parts: seq<seq<nat>>,
                     sizes: seq<nat>, i: nat)
    requires 0 < |groups| == |parts| == |sizes| && i < |groups[0]|
    requires Grouped(groups, parts, sizes) && Apart(parts) && PartsBelow(parts, n)
    requires Distinct(prefix) && AllBelow(prefix, n) && Outside(prefix, parts)
    ensures Distinct(prefix + groups[0][i]) && AllBelow(prefix + groups[0][i], n)
    ensures |prefix + groups[0][i]| == |prefix| + sizes[0]
    ensures Outside(prefix + groups[0][i], parts[1..])
    ensures Grouped(groups[1..], parts[1..], sizes[1..]) && Apart(parts[1..]) && PartsBelow(parts[1..], n)
  {
    var x := groups[0][i];
    assert IsSample(x, parts[0], sizes[0]);
    assert Elems(x) <= Elems(parts[0]);
    assert Elems(prefix) !! Elems(parts[0]);
    DisjointConcat(prefix, x);
    forall k | 0 <= k < |parts[1..]| ensures Elems(prefix + x) !! Elems(parts[1..][k]) {
      assert parts[1..][k] == parts[k + 1];
      assert Elems(prefix) !! Elems(parts[k + 1]);
      assert Elems(parts[0]) !! Elems(parts[k + 1]);
      forall y | y in Elems(prefix + x) ensures y !in Elems(parts[k + 1]) {
        assert y in Elems(prefix) || y in Elems(parts[0]);
      }
    }
    forall j | 0 <= j < |x| ensures x[j] < n {
      assert x[j] in parts[0];
    }
    forall k, j | 0 <= k < |groups[1..]| && 0 <= j < |groups[1..][k]|
      ensures IsSample(groups[1..][k][j], parts[1..][k], sizes[1..][k])
    {
      assert IsSample(groups[k + 1][j], parts[k + 1], sizes[k + 1]);
    }
    forall k, l | 0 <= k < l < |parts[1..]| ensures Elems(parts[1..][k]) !! Elems(parts[1..][l]) {
      assert Elems(parts[k + 1]) !! Elems(parts[l + 1]);
    }
  }

  /** `for subset_a in subsets_a { for subset_b in subsets_b { … } }`: one
      subset from each group in turn, the chosen indices set in a fresh
      vector (`a.chain(b).chain(c).chain(d)`), kept when its syndrome is the
      target. A kept vector has exactly `|prefix| + Sum(sizes)` ones. */
  method SearchProduct(h: Matrix, n: nat, target: seq<Byte>, prefix: seq<nat>,
                       groups: seq<seq<seq<nat>>>, parts: seq<seq<nat>>, sizes: seq<nat>)
    returns (r: Option<seq<Byte>>)
    requires h.Valid() && |groups| == |parts| == |sizes|
    requires Grouped(groups, parts, sizes) && Apart(parts) && PartsBelow(parts, n)
    requires Distinct(prefix) && AllBelow(prefix, n) && Outside(prefix, parts)
    ensures r.Some? ==> CalculateSyndrome(r.value, h) == target
    ensures r.Some? ==> |r.value| == n && IsBinary(r.value) && CountOnes(r.value) == |prefix| + Sum(sizes)
    decreases |groups|
  {
    if |groups| == 0 {
      var candidate := MarkPositions(n, prefix);
      var check := CalculateSyndrome(candidate, h);
      if check != target {
        return None;
      }
      MarkedWeight(n, prefix);
      return Some(candidate);
    }
    for i := 0 to |groups[0]| {
      ExtendPrefix(n, prefix, groups, parts, sizes, i);
      r := SearchProduct(h, n, target, prefix + groups[0][i], groups[1..], parts[1..], sizes[1..]);
      if r.Some? {
        return;
      }
    }
    return None;
  }

  // ---------------------------------------------------------------------------
  // Walking the keys
  // ---------------------------------------------------------------------------

  /** The four lists, each holding samples of its own part. */
  predicate Lists(h: Matrix, lists: seq<map<seq<Byte>, seq<seq<nat>>>>, parts: seq<seq<nat>>, sizes: seq<nat>)
    requires h.Valid()
  {
    |lists| == 4 && |parts| == 4 && |sizes| == 4 &&
    forall k | 0 <= k < 4 :: Buckets(h, lists[k], parts[k], sizes[k])
  }

  /** What every search level needs of the split. */
  predicate Split(h: Matrix, n: nat, lists: seq<map<seq<Byte>, seq<seq<nat>>>>, parts: seq<seq<nat>>,
                  sizes: seq<nat>)
    requires h.Valid()
  {
    Lists(h, lists, parts, sizes) && Apart(parts) && PartsBelow(parts, n)
  }

  /** Picking one bucket per list gives groups of samples of the four parts. */
  lemma PickedGroups(h: Matrix, lists: seq<map<seq<Byte>, seq<seq<nat>>>>, parts: seq<seq<nat>>,
                     sizes: seq<nat>, keys: seq<seq<Byte>>)
    requires h.Valid() && Lists(h, lists, parts, sizes) && |keys| == 4
    requires forall k | 0 <= k < 4 :: keys[k] in lists[k]
    ensures Grouped([lists[0][keys[0]], lists[1][keys[1]], lists[2][keys[2]], lists[3][keys[3]]], parts, sizes)
  {
    var groups := [lists[0][keys[0]], lists[1][keys[1]], lists[2][keys[2]], lists[3][keys[3]]];
    forall k, i | 0 <= k < 4 && 0 <= i < |groups[k]| ensures IsSample(groups[k][i], parts[k], sizes[k]) {
      assert groups[k] == lists[k][keys[k]];
    }
  }

  /** `for (rep_c, subsets_c) in &list_c`: the needed fourth key is
      `needed_rep_cd ^ rep_c`; where `list_d` has it, try every combination.
      `keys` names the four buckets an answer came from: one key per list,
      and together they XOR to the target. */
  method MatchC(h: Matrix, n: nat, target: seq<Byte>, lists: seq<map<seq<Byte>, seq<seq<nat>>>>,
                parts: seq<seq<nat>>, sizes: seq<nat>, repA: seq<Byte>, repB: seq<Byte>, neededCd: seq<Byte>)
    returns (r: Option<seq<Byte>>, ghost keys: seq<seq<Byte>>)
    requires h.Valid() && Split(h, n, lists, parts, sizes) && |target| == h.rows
    requires repA in lists[0] && repB in lists[1]
    requires neededCd == Xor(target, Xor(repA, repB))
    ensures r.Some? ==> CalculateSyndrome(r.value, h) == target
    ensures r.Some? ==> |r.value| == n && IsBinary(r.value) && CountOnes(r.value) == Sum(sizes)
    ensures r.Some? ==> |keys| == 4 && keys[0] == repA && keys[1] == repB
    ensures r.Some? ==> forall k | 0 <= k < 4 :: keys[k] in lists[k]
    ensures r.Some? ==> Xor(Xor(Xor(keys[0], keys[1]), keys[2]), keys[3]) == target
  {
    keys := [];
    var remaining := lists[2].Keys;
    while remaining != {}
      invariant remaining <= lists[2].Keys
      decreases |remaining|
    {
      var repC :| repC in remaining;
      remaining := remaining - {repC};
      var neededD := XorAssign(neededCd, repC);
      if neededD in lists[3] {
        keys := [repA, repB, repC, neededD];
        ProbeKey(target, repA, repB, repC);
        PickedGroups(h, lists, parts, sizes, keys);
        r := SearchProduct(h, n, target, [],
                           [lists[0][repA], lists[1][repB], lists[2][repC], lists[3][neededD]], parts, sizes);
        if r.Some? {
          return;
        }
      }
    }
    return None, keys;
  }

  /** `for (rep_b, subsets_b) in &list_b`: `rep_ab = rep_a ^ rep_b` and
      `needed_rep_cd = target ^ rep_ab`. */
  method MatchB(h: Matrix, n: nat, target: seq<Byte>, lists: seq<map<seq<Byte>, seq<seq<nat>>>>,
                parts: seq<seq<nat>>, sizes: seq<nat>, repA: seq<Byte>)
    returns (r: Option<seq<Byte>>)
    requires h.Valid() && Split(h, n, lists, parts, sizes) && |target| == h.rows
    requires repA in lists[0]
    ensures r.Some? ==> CalculateSyndrome(r.value, h) == target
    ensures r.Some? ==> |r.value| == n && IsBinary(r.value) && CountOnes(r.value) == Sum(sizes)
  {
    var remaining := lists[1].Keys;
    while remaining != {}
      invariant remaining <= lists[1].Keys
      decreases |remaining|
    {
      var repB :| repB in remaining;
      remaining := remaining - {repB};
      var repAb := XorAssign(repA, repB);
      var neededCd := XorAssign(target, repAb);
      ghost var keys;
      r, keys := MatchC(h, n, target, lists, parts, sizes, repA, repB, neededCd);
      if r.Some? {
        return;
      }
    }
    return None;
  }

  /** `for (rep_a, subsets_a) in &list_a`, in hash-map order. */
  method MatchA(h: Matrix, n: nat, target: seq<Byte>, lists: seq<map<seq<Byte>, seq<seq<nat>>>>,
                parts: seq<seq<nat>>, sizes: seq<nat>)
    returns (r: Option<seq<Byte>>)
    requires h.Valid() && Split(h, n, lists, parts, sizes) && |target| == h.rows
    ensures r.Some? ==> CalculateSyndrome(r.value, h) == target
    ensures r.Some? ==> |r.value| == n && IsBinary(r.value) && CountOnes(r.value) == Sum(sizes)
  {
    var remaining := lists[0].Keys;
    while remaining != {}
      invariant remaining <= lists[0].Keys
      decreases |remaining|
    {
      var repA :| repA in remaining;
      remaining := remaining - {repA};
      r := MatchB(h, n, target, lists, parts, sizes, repA);
      if r.Some? {
        return;
      }
    }
    return None;
  }

  // ---------------------------------------------------------------------------
  // Why the keys are the right ones
  // ---------------------------------------------------------------------------

  /** The probe key completes the target: when `needed_rep_d` is found, the
      four keys XOR to the target. */
  lemma ProbeKey(target: seq<Byte>, repA: seq<Byte>, repB: seq<Byte>, repC: seq<Byte>)
    requires |repA| == |target| && |repB| == |target| && |repC| == |target|
    ensures Xor(Xor(Xor(repA, repB), repC), Xor(Xor(target, Xor(repA, repB)), repC)) == target
  {
  }

  /** Where the four keys XOR to the target, as they do at every hit of
      `MatchC`, one subset from each of their buckets joins to an index list
      whose partial syndrome is the target; for a 0/1 matrix and distinct
      indices that is the full syndrome of their indicator, so the recheck of
      such a join passes. */
  lemma FourWay(h: Matrix, lists: seq<map<seq<Byte>, seq<seq<nat>>>>, parts: seq<seq<nat>>,
                sizes: seq<nat>, keys: seq<seq<Byte>>, target: seq<Byte>, picks: seq<seq<nat>>)
    requires h.Valid() && Lists(h, lists, parts, sizes) && |keys| == 4 && |picks| == 4
    requires forall k | 0 <= k < 4 :: keys[k] in lists[k] && picks[k] in lists[k][keys[k]]
    requires Xor(Xor(Xor(keys[0], keys[1]), keys[2]), keys[3]) == target
    ensures var joined := picks[0] + picks[1] + picks[2] + picks[3];
      PartialInRange(h, joined, h.rows) && PartialSyndrome(h, joined, h.rows) == target
    ensures var joined := picks[0] + picks[1] + picks[2] + picks[3];
      h.Binary() && Distinct(joined) ==> CalculateSyndrome(Indicator(h.cols, Elems(joined)), h) == target
  {
    forall k | 0 <= k < 4
      ensures |keys[k]| == h.rows && PartialInRange(h, picks[k], h.rows)
      ensures PartialSyndrome(h, picks[k], h.rows) == keys[k]
    {
      var bucket := lists[k][keys[k]];
      var i :| 0 <= i < |bucket| && bucket[i] == picks[k];
      assert Buckets(h, lists[k], parts[k], sizes[k]);
    }
    var a, b, c, d := picks[0], picks[1], picks[2], picks[3];
    if h.rows > 0 {
      PartialSyndromeConcat(h, a, b, h.rows);
      PartialSyndromeConcat(h, a + b, c, h.rows);
      PartialSyndromeConcat(h, a + b + c, d, h.rows);
      if h.Binary() && Distinct(a + b + c + d) {
        PartialSyndromeIsSyndrome(h, a + b + c + d);
      }
    }
  }

  // ---------------------------------------------------------------------------
  // The search
  // ---------------------------------------------------------------------------

  /** One iteration: shuffle, split into quarters, build the four lists and
      walk their keys. */
  method BjmmRound(h: Matrix, n: nat, weight: nat, target: seq<Byte>, listSize: nat)
    returns (r: Option<seq<Byte>>)
    requires h.Valid() && |target| == h.rows && (h.rows > 0 ==> n <= h.cols)
    ensures r.Some? ==> CalculateSyndrome(r.value, h) == target
    ensures r.Some? ==> |r.value| == n && IsBinary(r.value) && CountOnes(r.value) <= weight
  {
    var indices := Shuffled(n);
    var parts := Quarters(indices, n);
    QuartersPartition(indices, n);
    var weights := Weights(weight);
    var sizes := Sizes(parts, weights);
    var listA, drawsA := BuildBuckets(h, parts[0], sizes[0], listSize);
    var listB, drawsB := BuildBuckets(h, parts[1], sizes[1], listSize);
    var listC, drawsC := BuildBuckets(h, parts[2], sizes[2], listSize);
    var listD, drawsD := BuildBuckets(h, parts[3], sizes[3], listSize);
    var lists := [listA, listB, listC, listD];
    assert Lists(h, lists, parts, sizes);
    r := MatchA(h, n, target, lists, parts, sizes);
  }

  /** `run_bjmm_algorithm(received, h, n, weight)` of src/algorithms/bjmm.rs
      with `MAX_ITERATIONS` and `LIST_SIZE` given. `rounds` counts the
      iterations run: `None` comes only after all of them. An answer passed
      the full syndrome check, is a 0/1 vector of length n and has at most
      `weight` ones. */
  method RunBjmm(received: seq<Byte>, h: Matrix, n: nat, weight: nat, maxIterations: nat, listSize: nat)
    returns (r: Option<seq<Byte>>, rounds: nat)
    requires h.Valid() && (h.rows > 0 ==> n <= h.cols)
    ensures rounds <= maxIterations && (r.None? ==> rounds == maxIterations)
    ensures r.Some? ==> CalculateSyndrome(r.value, h) == CalculateSyndrome(received, h)
    ensures r.Some? ==> |r.value| == n && IsBinary(r.value) && CountOnes(r.value) <= weight
  {
    var target := CalculateSyndrome(received, h);
    rounds := 0;
    while rounds < maxIterations
      invariant rounds <= maxIterations
    {
      r := BjmmRound(h, n, weight, target, listSize);
      rounds := rounds + 1;
      if r.Some? {
        return;
      }
    }
    r := None;
  }

  /** `run_bjmm_algorithm(received, h, n, weight)` of src/attacks/bjmm.rs: the
      same search with 100 iterations and lists of 256 draws. */
  method RunBjmmAttack(received: seq<Byte>, h: Matrix, n: nat, weight: nat)
    returns (r: Option<seq<Byte>>)
    requires h.Valid() && (h.rows > 0 ==> n <= h.cols)
    ensures r.Some? ==> CalculateSyndrome(r.value, h) == CalculateSyndrome(received, h)
    ensures r.Some? ==> |r.value| == n && IsBinary(r.value) && CountOnes(r.value) <= weight
  {
    var rounds;
    r, rounds := RunBjmm(received, h, n, weight, 100, 256);
  }
}
