/** Prange's information-set decoder: `run_prange_algorithm` of
    src/algorithms/prange.rs and its older copy in src/attacks/prange.rs. Each
    round re-shuffles the index buffer in place, sets the first `weight`
    shuffled positions and keeps the candidate when its syndrome is the
    received one. The shuffles are inputs: shuffle k reorders the buffer by the
    permutation `shuffles[k]` of its positions. */
module Prange {
  import opened Gf2
  import opened Syndrome

  /** Every shuffle is a permutation of the n positions of the buffer. */
  predicate Shuffles(shuffles: seq<seq<nat>>, n: nat) {
    forall k | 0 <= k < |shuffles| :: IsPermutation(shuffles[k], n)
  }

  /** `s` rearranged so that its new entry i is its old entry p[i]. */
  function Reorder(s: seq<nat>, p: seq<nat>): (r: seq<nat>)
    requires AllBelow(p, |s|)
    ensures |r| == |p| && forall i | 0 <= i < |p| :: r[i] == s[p[i]]
  {
    seq(|p|, i requires 0 <= i < |p| => s[p[i]])
  }

  /** Rearranging a permutation by a permutation gives a permutation. */
  lemma ReorderPermutation(s: seq<nat>, p: seq<nat>, n: nat)
    requires IsPermutation(s, n) && IsPermutation(p, n)
    ensures IsPermutation(Reorder(s, p), n)
  {
  }

  /** The index buffer after k rounds: `(0..n).collect()` shuffled k times. It
      stays a permutation of `0..n`. */
  function Arrangement(n: nat, shuffles: seq<seq<nat>>, k: nat): (a: seq<nat>)
    requires k <= |shuffles| && Shuffles(shuffles, n)
    ensures IsPermutation(a, n)
  {
    if k == 0 then Range(0, n)
    else
      var prev := Arrangement(n, shuffles, k - 1);
      ReorderPermutation(prev, shuffles[k - 1], n);
      Reorder(prev, shuffles[k - 1])
  }

  /** The candidate of round k: ones at the first `weight` shuffled positions. */
  function Candidate(n: nat, weight: nat, shuffles: seq<seq<nat>>, k: nat): (e: seq<Byte>)
    requires weight <= n && k < |shuffles| && Shuffles(shuffles, n)
  {
    Indicator(n, Elems(Arrangement(n, shuffles, k + 1)[..weight]))
  }

  /** Round k's candidate has the target syndrome. */
  predicate Hit(target: seq<Byte>, h: Matrix, weight: nat, shuffles: seq<seq<nat>>, k: nat)
    requires h.Valid() && weight <= h.cols && k < |shuffles| && Shuffles(shuffles, h.cols)
  {
    CalculateSyndrome(Candidate(h.cols, weight, shuffles, k), h) == target
  }

  /** What the rounds k .. maxIterations − 1 return: the first candidate whose
      syndrome is the target, or `None`. */
  function PrangeFrom(target: seq<Byte>, h: Matrix, weight: nat, shuffles: seq<seq<nat>>, k: nat,
                      maxIterations: nat): Option<seq<Byte>>
    requires h.Valid() && maxIterations <= |shuffles| && Shuffles(shuffles, h.cols)
    requires 0 < maxIterations ==> weight <= h.cols
    decreases maxIterations - k
  {
    if k >= maxIterations then None
    else if Hit(target, h, weight, shuffles, k) then Some(Candidate(h.cols, weight, shuffles, k))
    else PrangeFrom(target, h, weight, shuffles, k + 1, maxIterations)
  }

  /** A candidate has length n and exactly `weight` ones. */
  lemma CandidateWeight(n: nat, weight: nat, shuffles: seq<seq<nat>>, k: nat)
    requires weight <= n && k < |shuffles| && Shuffles(shuffles, n)
    ensures |Candidate(n, weight, shuffles, k)| == n && IsBinary(Candidate(n, weight, shuffles, k))
    ensures CountOnes(Candidate(n, weight, shuffles, k)) == weight
  {
    MarkedWeight(n, Arrangement(n, shuffles, k + 1)[..weight]);
  }

  /** An answer is one of the candidates: its syndrome is the target, it has
      length n and exactly `weight` ones. */
  lemma {:induction false} PrangeSound(target: seq<Byte>, h: Matrix, weight: nat, shuffles: seq<seq<nat>>,
                                       k: nat, maxIterations: nat)
    requires h.Valid() && maxIterations <= |shuffles| && Shuffles(shuffles, h.cols)
    requires 0 < maxIterations ==> weight <= h.cols
    requires PrangeFrom(target, h, weight, shuffles, k, maxIterations).Some?
    ensures CalculateSyndrome(PrangeFrom(target, h, weight, shuffles, k, maxIterations).value, h) == target
    ensures |PrangeFrom(target, h, weight, shuffles, k, maxIterations).value| == h.cols
    ensures IsBinary(PrangeFrom(target, h, weight, shuffles, k, maxIterations).value)
    ensures CountOnes(PrangeFrom(target, h, weight, shuffles, k, maxIterations).value) == weight
    decreases maxIterations - k
  {
    if Hit(target, h, weight, shuffles, k) {
      CandidateWeight(h.cols, weight, shuffles, k);
    } else {
      PrangeSound(target, h, weight, shuffles, k + 1, maxIterations);
    }
  }

  /** `None` exactly when none of the candidates of rounds k .. maxIterations − 1
      has the target syndrome. */
  lemma {:induction false} PrangeExhausted(target: seq<Byte>, h: Matrix, weight: nat, shuffles: seq<seq<nat>>,
                                           k: nat, maxIterations: nat)
    requires h.Valid() && maxIterations <= |shuffles| && Shuffles(shuffles, h.cols)
    requires 0 < maxIterations ==> weight <= h.cols
    ensures PrangeFrom(target, h, weight, shuffles, k, maxIterations).None? <==>
      forall j | k <= j < maxIterations :: !Hit(target, h, weight, shuffles, j)
    decreases maxIterations - k
  {
    if k < maxIterations {
      PrangeExhausted(target, h, weight, shuffles, k + 1, maxIterations);
    }
  }

  /** No round before k hits. */
  predicate Misses(target: seq<Byte>, h: Matrix, weight: nat, shuffles: seq<seq<nat>>, k: nat)
    requires h.Valid() && k <= |shuffles| && Shuffles(shuffles, h.cols) && (0 < k ==> weight <= h.cols)
  {
    forall j | 0 <= j < k :: !Hit(target, h, weight, shuffles, j)
  }

  /** After k missed rounds the answer is what the remaining rounds give. */
  lemma {:induction false} PrangeSkip(target: seq<Byte>, h: Matrix, weight: nat, shuffles: seq<seq<nat>>,
                                      k: nat, maxIterations: nat)
    requires h.Valid() && maxIterations <= |shuffles| && Shuffles(shuffles, h.cols)
    requires 0 < maxIterations ==> weight <= h.cols
    requires k <= maxIterations && Misses(target, h, weight, shuffles, k)
    ensures PrangeFrom(target, h, weight, shuffles, 0, maxIterations)
         == PrangeFrom(target, h, weight, shuffles, k, maxIterations)
  {
    if k > 0 {
      PrangeSkip(target, h, weight, shuffles, k - 1, maxIterations);
    }
  }

  /** One round: shuffle the buffer, set the first `weight` entries in a fresh
      zero vector and compare its syndrome with the target. */
  method PrangeRound(target: seq<Byte>, h: Matrix, weight: nat, shuffles: seq<seq<nat>>, indices: seq<nat>, k: nat)
    returns (next: seq<nat>, candidate: seq<Byte>, matched: bool)
    requires h.Valid() && weight <= h.cols && k < |shuffles| && Shuffles(shuffles, h.cols)
    requires indices == Arrangement(h.cols, shuffles, k)
    ensures next == Arrangement(h.cols, shuffles, k + 1)
    ensures candidate == Candidate(h.cols, weight, shuffles, k)
    ensures matched == Hit(target, h, weight, shuffles, k)
  {
    next := Reorder(indices, shuffles[k]);
    var chosen := next[..weight];
    candidate := MarkPositions(h.cols, chosen);
    var candidateSyndrome := CalculateSyndrome(candidate, h);
    matched := candidateSyndrome == target;
  }

  /** `run_prange_algorithm(received, h, weight)` of src/algorithms/prange.rs with
      `MAX_ITERATIONS` given: `indices[..weight]` needs `weight <= n` once a round
      runs. */
  method RunPrange(received: seq<Byte>, h: Matrix, weight: nat, maxIterations: nat, shuffles: seq<seq<nat>>)
    returns (r: Option<seq<Byte>>)
    requires h.Valid() && maxIterations <= |shuffles| && Shuffles(shuffles, h.cols)
    requires 0 < maxIterations ==> weight <= h.cols
    ensures r == PrangeFrom(CalculateSyndrome(received, h), h, weight, shuffles, 0, maxIterations)
  {
    var target := CalculateSyndrome(received, h);
    var indices := Range(0, h.cols);
    var loopCount := 0;
    while loopCount < maxIterations
      invariant loopCount <= maxIterations
      invariant indices == Arrangement(h.cols, shuffles, loopCount)
      invariant Misses(target, h, weight, shuffles, loopCount)
    {
      var candidate, matched;
      indices, candidate, matched := PrangeRound(target, h, weight, shuffles, indices, loopCount);
      if matched {
        PrangeSkip(target, h, weight, shuffles, loopCount, maxIterations);
        return Some(candidate);
      }
      loopCount := loopCount + 1;
    }
    PrangeSkip(target, h, weight, shuffles, maxIterations, maxIterations);
    return None;
  }

  /** `run_prange_algorithm(received, h, weight)` of src/attacks/prange.rs: the
      same rounds with the cap fixed at 100, which always runs, so it always
      needs `weight <= n`. */
  method RunPrangeAttack(received: seq<Byte>, h: Matrix, weight: nat, shuffles: seq<seq<nat>>)
    returns (r: Option<seq<Byte>>)
    requires h.Valid() && 100 <= |shuffles| && Shuffles(shuffles, h.cols) && weight <= h.cols
    ensures r == PrangeFrom(CalculateSyndrome(received, h), h, weight, shuffles, 0, 100)
    ensures r.Some? ==> CalculateSyndrome(r.value, h) == CalculateSyndrome(received, h)
    ensures r.Some? ==> |r.value| == h.cols && IsBinary(r.value) && CountOnes(r.value) == weight
  {
    r := RunPrange(received, h, weight, 100, shuffles);
    if r.Some? {
      PrangeSound(CalculateSyndrome(received, h), h, weight, shuffles, 0, 100);
    }
  }
}
