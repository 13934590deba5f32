/** The ball-collision search: `run_ball_collision_algorithm` of
    src/algorithms/ball_collision.rs and its older copy in
    src/attacks/ball_collision.rs. Each iteration shuffles `0..n`, splits it in
    two halves, stores random samples of the first half under their partial
    syndromes (`insert`, so a later sample replaces an earlier one) and then
    probes with random samples of the second half, keeping a candidate only
    when its full syndrome is the target. */
module BallCollision {
  import opened Gf2
  import opened Syndrome
  import opened IsdCommon

  // ---------------------------------------------------------------------------
  // Sizes
  // ---------------------------------------------------------------------------

  /** Size of every sample of the first half: `p1.min(part1.len())`. */
  function FirstSize(n: nat, weight: nat): nat {
    Min(weight / 2, n / 2)
  }

  /** Size of every sample of the second half: `p2.min(part2.len())`. */
  function SecondSize(n: nat, weight: nat): nat {
    Min(weight - weight / 2, n - n / 2)
  }

  /** The two sample sizes never add up to more than the weight, and the first
      one is zero exactly when the weight or the length is below 2. */
  lemma SampleSizes(n: nat, weight: nat)
    ensures FirstSize(n, weight) + SecondSize(n, weight) <= weight
    ensures FirstSize(n, weight) == 0 <==> weight < 2 || n < 2
  {
  }

  // ---------------------------------------------------------------------------
  // list1: one subset per partial syndrome
  // ---------------------------------------------------------------------------

  /** Every draw can be handed to `calculate_partial_syndrome` over all rows. */
  predicate Drawable(h: Matrix, draws: seq<seq<nat>>) {
    forall i | 0 <= i < |draws| :: PartialInRange(h, draws[i], h.rows)
  }

  /** `list1` after the given draws: an empty draw is skipped, any other one is
      inserted under its partial syndrome, replacing what was stored there. */
  function Inserted(h: Matrix, draws: seq<seq<nat>>): (m: map<seq<Byte>, seq<nat>>)
    requires h.Valid() && Drawable(h, draws)
    ensures forall key | key in m ::
      m[key] in draws && |m[key]| > 0 && PartialSyndrome(h, m[key], h.rows) == key
  {
    if |draws| == 0 then map[]
    else
      var init := draws[..|draws| - 1];
      var last := draws[|draws| - 1];
      assert Drawable(h, init) by {
        forall i | 0 <= i < |init| ensures PartialInRange(h, init[i], h.rows) {
          assert init[i] == draws[i];
        }
      }
      var m := Inserted(h, init);
      if |last| == 0 then m else m[PartialSyndrome(h, last, h.rows) := last]
  }

  /** A key is stored exactly when some non-empty draw has it. */
  lemma {:induction false} InsertedKeys(h: Matrix, draws: seq<seq<nat>>, key: seq<Byte>)
    requires h.Valid() && Drawable(h, draws)
    ensures key in Inserted(h, draws) <==>
      exists i | 0 <= i < |draws| :: |draws[i]| > 0 && PartialSyndrome(h, draws[i], h.rows) == key
  {
    if |draws| > 0 {
      var init := draws[..|draws| - 1];
      var last := draws[|draws| - 1];
      assert Drawable(h, init) by {
        forall i | 0 <= i < |init| ensures PartialInRange(h, init[i], h.rows) {
          assert init[i] == draws[i];
        }
      }
      InsertedKeys(h, init, key);
      if exists i | 0 <= i < |init| :: |init[i]| > 0 && PartialSyndrome(h, init[i], h.rows) == key {
        var i :| 0 <= i < |init| && |init[i]| > 0 && PartialSyndrome(h, init[i], h.rows) == key;
        assert draws[i] == init[i];
      }
      if key in Inserted(h, draws) && key !in Inserted(h, init) {
        assert |last| > 0 && PartialSyndrome(h, last, h.rows) == key;
        assert draws[|draws| - 1] == last;
      }
    }
  }

  /** `insert` overwrites: the subset stored under a key is the last non-empty
      draw with that key. */
  lemma {:induction false} InsertedLastWins(h: Matrix, draws: seq<seq<nat>>, i: nat)
    requires h.Valid() && Drawable(h, draws) && i < |draws| && |draws[i]| > 0
    requires forall j | i < j < |draws| ::
      (|draws[j]| == 0 || PartialSyndrome(h, draws[j], h.rows) != PartialSyndrome(h, draws[i], h.rows))
    ensures PartialSyndrome(h, draws[i], h.rows) in Inserted(h, draws)
    ensures Inserted(h, draws)[PartialSyndrome(h, draws[i], h.rows)] == draws[i]
  {
    var init := draws[..|draws| - 1];
    assert Drawable(h, init) by {
      forall j | 0 <= j < |init| ensures PartialInRange(h, init[j], h.rows) {
        assert init[j] == draws[j];
      }
    }
    if i < |draws| - 1 {
      forall j | i < j < |init|
        ensures |init[j]| == 0 || PartialSyndrome(h, init[j], h.rows) != PartialSyndrome(h, init[i], h.rows)
      {
        assert init[j] == draws[j];
      }
      assert init[i] == draws[i];
      InsertedLastWins(h, init, i);
    }
  }

  /** What `list1` holds: non-empty samples of the part, each under its own
      partial syndrome. */
  predicate BallList(h: Matrix, list: map<seq<Byte>, seq<nat>>, part: seq<nat>, size: nat)
    requires h.Valid()
  {
    forall key | key in list ::
      IsSample(list[key], part, size) && |list[key]| > 0 &&
      PartialInRange(h, list[key], h.rows) && PartialSyndrome(h, list[key], h.rows) == key
  }

  /** The first loop: `listSize` samples of the part, the non-empty ones
      inserted into `list1` under their partial syndromes. */
  method BuildBallList(h: Matrix, part: seq<nat>, size: nat, listSize: nat)
    returns (list: map<seq<Byte>, seq<nat>>, ghost draws: seq<seq<nat>>)
    requires h.Valid() && Distinct(part) && size <= |part| && (h.rows > 0 ==> AllBelow(part, h.cols))
    ensures |draws| == listSize && Samples(draws, part, size) && Drawable(h, draws)
    ensures list == Inserted(h, draws)
    ensures BallList(h, list, part, size)
    ensures size == 0 ==> list == map[]
  {
    list := map[];
    draws := [];
    for t := 0 to listSize
      invariant |draws| == t && Samples(draws, part, size) && Drawable(h, draws)
      invariant list == Inserted(h, draws)
    {
      var selected := ChooseMultiple(part, size);
      SampleInRange(h, selected, part, size);
      assert (draws + [selected])[..t] == draws;
      draws := draws + [selected];
      if |selected| == 0 {
        continue;
      }
      var partial := CalculatePartialSyndrome(h, selected, h.rows);
      list := list[partial := selected];
    }
    if size == 0 {
      forall key | key in list ensures false {
        InsertedKeys(h, draws, key);
      }
    }
  }

  // ---------------------------------------------------------------------------
  // The probe
  // ---------------------------------------------------------------------------

  /** One draw of the second loop: sample the second half, look up the
      complement of its partial syndrome in `list1` and, on a hit, set both
      subsets in a fresh vector and keep it only when its syndrome is the
      target. A kept vector joins two disjoint samples, so it has exactly
      `size1 + size2` ones. */
  method Probe(h: Matrix, n: nat, target: seq<Byte>, list1: map<seq<Byte>, seq<nat>>,
               part1: seq<nat>, size1: nat, part2: seq<nat>, size2: nat)
    returns (r: Option<seq<Byte>>)
    requires h.Valid() && |target| == h.rows && (h.rows > 0 ==> n <= h.cols)
    requires AllBelow(part1, n) && AllBelow(part2, n) && Elems(part1) !! Elems(part2)
    requires Distinct(part2) && size2 <= |part2| && BallList(h, list1, part1, size1)
    ensures r.Some? ==> CalculateSyndrome(r.value, h) == target
    ensures r.Some? ==> |r.value| == n && IsBinary(r.value) && CountOnes(r.value) == size1 + size2
    ensures list1 == map[] ==> r.None?
  {
    var selected := ChooseMultiple(part2, size2);
    if |selected| == 0 {
      return None;
    }
    var partial := CalculatePartialSyndrome(h, selected, h.rows);
    var needed := XorAssign(target, partial);
    if needed !in list1 {
      return None;
    }
    var indices1 := list1[needed];
    var candidate := MarkPositions(n, indices1);
    candidate := SetOnes(candidate, selected);
    var check := CalculateSyndrome(candidate, h);
    if check != target {
      return None;
    }
    JoinWeight(n, indices1, selected, part1, size1, part2, size2);
    assert candidate == Indicator(n, Elems(indices1 + selected));
    r := Some(candidate);
  }

  /** A sample of each half, joined: a 0/1 vector with exactly `size1 + size2`
      ones. */
  lemma JoinWeight(n: nat, a: seq<nat>, b: seq<nat>, part1: seq<nat>, size1: nat, part2: seq<nat>, size2: nat)
    requires IsSample(a, part1, size1) && IsSample(b, part2, size2)
    requires AllBelow(part1, n) && AllBelow(part2, n) && Elems(part1) !! Elems(part2)
    ensures Elems(a + b) == Elems(a) + Elems(b)
    ensures |Indicator(n, Elems(a + b))| == n && IsBinary(Indicator(n, Elems(a + b)))
    ensures CountOnes(Indicator(n, Elems(a + b))) == size1 + size2
  {
    assert Elems(a) !! Elems(b) by {
      forall x | x in Elems(a) ensures x !in Elems(b) {
        assert x in Elems(part1);
      }
    }
    DisjointConcat(a, b);
    MarkedWeight(n, a + b);
  }

  /** The second loop: up to `listSize` probes, stopping at the first kept
      vector. */
  method ProbeAll(h: Matrix, n: nat, target: seq<Byte>, list1: map<seq<Byte>, seq<nat>>,
                  part1: seq<nat>, size1: nat, part2: seq<nat>, size2: nat, listSize: nat)
    returns (r: Option<seq<Byte>>)
    requires h.Valid() && |target| == h.rows && (h.rows > 0 ==> n <= h.cols)
    requires AllBelow(part1, n) && AllBelow(part2, n) && Elems(part1) !! Elems(part2)
    requires Distinct(part2) && size2 <= |part2| && BallList(h, list1, part1, size1)
    ensures r.Some? ==> CalculateSyndrome(r.value, h) == target
    ensures r.Some? ==> |r.value| == n && IsBinary(r.value) && CountOnes(r.value) == size1 + size2
    ensures list1 == map[] ==> r.None?
  {
    for t := 0 to listSize {
      r := Probe(h, n, target, list1, part1, size1, part2, size2);
      if r.Some? {
        return;
      }
    }
    return None;
  }

  // ---------------------------------------------------------------------------
  // The search
  // ---------------------------------------------------------------------------

  /** One iteration: shuffle `0..n`, split it at ⌊n/2⌋, build `list1` from the
      first half and probe it with the second. */
  method BallRound(h: Matrix, n: nat, weight: nat, target: seq<Byte>, listSize: nat)
    returns (r: Option<seq<Byte>>)
    requires h.Valid() && |target| == h.rows && (h.rows > 0 ==> n <= h.cols)
    ensures r.Some? ==> CalculateSyndrome(r.value, h) == target
    ensures r.Some? ==> |r.value| == n && IsBinary(r.value)
    ensures r.Some? ==> CountOnes(r.value) == FirstSize(n, weight) + SecondSize(n, weight)
    ensures weight < 2 || n < 2 ==> r.None?
  {
    var indices := Shuffled(n);
    var half := n / 2;
    var part1 := indices[0..half];
    var part2 := indices[half..n];
    SliceBelow(indices, n, 0, half);
    SliceBelow(indices, n, half, n);
    SlicesDisjoint(indices, 0, half, half, n);
    var p1 := weight / 2;
    var p2 := weight - p1;
    var list1, draws := BuildBallList(h, part1, Min(p1, |part1|), listSize);
    r := ProbeAll(h, n, target, list1, part1, Min(p1, |part1|), part2, Min(p2, |part2|), listSize);
    SampleSizes(n, weight);
  }

  /** `run_ball_collision_algorithm(received, h, n, weight)` of
      src/algorithms/ball_collision.rs with `MAX_ITERATIONS` and `LIST_SIZE`
      given. `rounds` counts the iterations run: `None` comes only after all of
      them. An answer passed the full syndrome check, is a 0/1 vector of length
      n and has at most `weight` ones. */
  method RunBallCollision(received: seq<Byte>, h: Matrix, n: nat, weight: nat, maxIterations: nat, listSize: nat)
    returns (r: Option<seq<Byte>>, rounds: nat)
    requires h.Valid() && (h.rows > 0 ==> n <= h.cols)
    ensures rounds <= maxIterations && (r.None? ==> rounds == maxIterations)
    ensures r.Some? ==> CalculateSyndrome(r.value, h) == CalculateSyndrome(received, h)
    ensures r.Some? ==> |r.value| == n && IsBinary(r.value) && CountOnes(r.value) <= weight
    ensures r.Some? ==> CountOnes(r.value) == FirstSize(n, weight) + SecondSize(n, weight)
    ensures weight < 2 || n < 2 ==> r.None?
  {
    var target := CalculateSyndrome(received, h);
    SampleSizes(n, weight);
    rounds := 0;
    while rounds < maxIterations
      invariant rounds <= maxIterations
    {
      r := BallRound(h, n, weight, target, listSize);
      rounds := rounds + 1;
      if r.Some? {
        return;
      }
    }
    r := None;
  }

  /** `run_ball_collision_algorithm(received, h, n, weight)` of
      src/attacks/ball_collision.rs: the same search with 100 iterations and
      lists of 1000 draws. */
  method RunBallCollisionAttack(received: seq<Byte>, h: Matrix, n: nat, weight: nat)
    returns (r: Option<seq<Byte>>)
    requires h.Valid() && (h.rows > 0 ==> n <= h.cols)
    ensures r.Some? ==> CalculateSyndrome(r.value, h) == CalculateSyndrome(received, h)
    ensures r.Some? ==> |r.value| == n && IsBinary(r.value) && CountOnes(r.value) <= weight
    ensures weight < 2 || n < 2 ==> r.None?
  {
    var rounds;
    r, rounds := RunBallCollision(received, h, n, weight, 100, 1000);
  }
}
