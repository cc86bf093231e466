/** The two random draws of the generator, `SystemRandom.choice` and
    `SystemRandom.sample`, with the random outcome supplied by the caller as a
    sequence of indices (an oracle). Every property proved about the generator
    holds for every outcome these predicates admit. */
module Draws {

  /** `draws` is a possible outcome of `n` successive calls of `choice` on a
      list of `size` elements: `n` indices, each a valid position. */
  predicate ChoicesFit(draws: seq<nat>, n: nat, size: nat) {
    |draws| == n && forall i :: 0 <= i < n ==> draws[i] < size
  }

  /** `picks` is a possible outcome of `sample(population, k)` on a population
      of `size` elements: `k` valid positions, no position chosen twice. */
  predicate SampleFits(picks: seq<nat>, k: nat, size: nat) {
    && |picks| == k
    && (forall i :: 0 <= i < k ==> picks[i] < size)
    && (forall i, j :: 0 <= i < j < k ==> picks[i] != picks[j])
  }

  /** `[choice(pool) for _ in range(|draws|)]`: draws with replacement. */
  function Choices(pool: string, draws: seq<nat>): (r: string)
    requires ChoicesFit(draws, |draws|, |pool|)
    ensures |r| == |draws|
    ensures forall c :: c in r ==> c in pool
  {
    seq(|draws|, i requires 0 <= i < |draws| => pool[draws[i]])
  }

  /** `sample(population, k=|picks|)`: the elements at the chosen positions, in
      the order they were chosen. */
  function Sample(population: string, picks: seq<nat>): (r: string)
    requires SampleFits(picks, |picks|, |population|)
    ensures |r| == |picks|
    ensures forall c :: c in r ==> c in population
  {
    seq(|picks|, i requires 0 <= i < |picks| => population[picks[i]])
  }

  /** A sample can be taken whenever `k` does not exceed the population:
      the first `k` positions are one possible outcome. */
  lemma SampleExists(k: nat, size: nat)
    requires k <= size
    ensures SampleFits(seq(k, i => i), k, size)
  {
  }

  /** Removing the `p`-th pick removes one occurrence of its character from
      the sample. */
  lemma SampleWithout(population: string, picks: seq<nat>, p: nat)
    requires SampleFits(picks, |picks|, |population|)
    requires p < |picks|
    ensures SampleFits(picks[..p] + picks[p + 1..], |picks| - 1, |population|)
    ensures multiset(Sample(population, picks))
         == multiset(Sample(population, picks[..p] + picks[p + 1..])) + multiset{population[picks[p]]}
  {
    var rest := picks[..p] + picks[p + 1..];
    assert forall i :: 0 <= i < |rest| ==> rest[i] == if i < p then picks[i] else picks[i + 1];
    var whole := Sample(population, picks);
    assert whole == whole[..p] + [population[picks[p]]] + whole[p + 1..];
    assert Sample(population, rest) == whole[..p] + whole[p + 1..];
  }

  /** Picks that avoid the last position sample the population without it. */
  lemma SampleAvoidingLast(population: string, picks: seq<nat>)
    requires |population| > 0
    requires SampleFits(picks, |picks|, |population| - 1)
    ensures SampleFits(picks, |picks|, |population|)
    ensures Sample(population, picks) == Sample(population[..|population| - 1], picks)
  {
  }

  /** Sampling is without replacement: no character occurs in the sample more
      often than in the population. */
  lemma {:induction false} SampleIsSubMultiset(population: string, picks: seq<nat>)
    requires SampleFits(picks, |picks|, |population|)
    ensures multiset(Sample(population, picks)) <= multiset(population)
    decreases |population|
  {
    if picks != [] {
      assert picks[0] < |population|;
      var m := |population| - 1;
      var init := population[..m];
      assert population == init + [population[m]];
      if p :| 0 <= p < |picks| && picks[p] == m {
        var rest := picks[..p] + picks[p + 1..];
        SampleWithout(population, picks, p);
        assert SampleFits(rest, |rest|, |init|) by {
          forall i | 0 <= i < |rest| ensures rest[i] < m {
            var k := if i < p then i else i + 1;
            assert rest[i] == picks[k] && k != p;
          }
        }
        SampleAvoidingLast(population, rest);
        SampleIsSubMultiset(init, rest);
      } else {
        SampleAvoidingLast(population, picks);
        SampleIsSubMultiset(init, picks);
      }
    }
  }
}
