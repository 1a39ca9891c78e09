/** Vote thresholds as percentages of a quorum (base/threshold.go), over exact reals. */
module Thresholds {
  import opened Reals

  const DEFAULT_THRESHOLD: real := 67.0
  const SAFE_THRESHOLD: real := 67.0
  const MIN_THRESHOLD: real := 51.0
  const MAX_THRESHOLD: real := 100.0

  /** The conversion to Go's unsigned integers is defined only for non-negative percentages. */
  type Percent = t: real | 0.0 <= t

  predicate IsValid(t: real) {
    && t > 0.0
    && t <= MAX_THRESHOLD
    && t >= MIN_THRESHOLD
  }

  /** The number of votes that a percentage asks for. */
  function Votes(t: Percent, quorum: nat): nat {
    TimesIsProduct(quorum, t / MAX_THRESHOLD);
    Ceil(Times(quorum, t / MAX_THRESHOLD))
  }

  function NumberOfFaultyNodes(n: nat, t: Percent): int {
    if n < 1 then 0
    else if t >= MAX_THRESHOLD then 0
    else (n as real - Times(n, t / MAX_THRESHOLD)).Floor
  }

  /** It is the share of the quorum rounded up. */
  lemma VotesRoundUp(t: Percent, quorum: nat)
    ensures Votes(t, quorum) as real >= quorum as real * (t / MAX_THRESHOLD) > Votes(t, quorum) as real - 1.0
  {
    TimesIsProduct(quorum, t / MAX_THRESHOLD);
    CeilBounds(quorum as real * (t / MAX_THRESHOLD));
  }

  /** No percentage up to all asks for more than everyone. */
  lemma VotesAtMost(t: Percent, n: nat)
    requires t <= MAX_THRESHOLD
    ensures Votes(t, n) <= n
  {
    VotesRoundUp(t, n);
    MulMono(n as real, t / MAX_THRESHOLD, 1.0);
  }

  /** A valid threshold is more than half and at most all of a non-empty quorum. */
  lemma VotesOfValid(t: Percent, n: nat)
    requires IsValid(t)
    ensures Votes(t, n) <= n
    ensures n > 0 ==> 2 * Votes(t, n) > n
  {
    VotesRoundUp(t, n);
    assert 0.51 <= t / MAX_THRESHOLD <= 1.0;
    VotesBetween(n as real, t / MAX_THRESHOLD, Votes(t, n) as real);
  }

  lemma VotesBetween(n: real, r: real, th: real)
    requires n >= 0.0 && 0.51 <= r <= 1.0
    requires th >= n * r > th - 1.0
    ensures th < n + 1.0 && th >= n * 0.51
  {
    MulMono(n, r, 1.0);
    MulMono(n, 0.51, r);
  }

  /** The faulty nodes are exactly the quorum members the threshold does without. */
  lemma FaultyIsRest(t: Percent, n: nat)
    requires t <= MAX_THRESHOLD
    ensures NumberOfFaultyNodes(n, t) == n - Votes(t, n)
  {
    var x := Times(n, t / MAX_THRESHOLD);
    if t == MAX_THRESHOLD {
      TimesIsProduct(n, t / MAX_THRESHOLD);
    }
    CeilBounds(x);
    var f := (n as real - x).Floor;
    assert f as real <= n as real - x < f as real + 1.0;
  }

  /** From the maximal threshold on nobody may be faulty, and never less than nobody. */
  lemma FaultyIsNotNegative(t: Percent, n: nat)
    ensures NumberOfFaultyNodes(n, t) >= 0
    ensures t >= MAX_THRESHOLD ==> NumberOfFaultyNodes(n, t) == 0
  {
    if t <= MAX_THRESHOLD {
      FaultyIsRest(t, n);
      VotesAtMost(t, n);
    }
  }

  /** At the maximal threshold everyone has to vote. */
  lemma VotesAtMax(n: nat)
    ensures Votes(MAX_THRESHOLD, n) == n
  {
    TimesIsProduct(n, 1.0);
  }

  /** From the safe threshold on, two quorums share more nodes than may be faulty. */
  lemma SafeQuorumsBeatFaulty(t: Percent, u: Percent, n: nat)
    requires IsValid(t) && IsValid(u)
    requires SAFE_THRESHOLD <= t && SAFE_THRESHOLD <= u
    requires n > 0
    ensures Votes(t, n) + Votes(u, n) - n > NumberOfFaultyNodes(n, t)
    ensures Votes(t, n) + Votes(u, n) - n > NumberOfFaultyNodes(n, u)
  {
    FaultyIsRest(t, n);
    FaultyIsRest(u, n);
    SafeVotes(t, n);
    SafeVotes(u, n);
  }

  lemma SafeVotes(t: Percent, n: nat)
    requires SAFE_THRESHOLD <= t
    ensures n > 0 ==> 3 * Votes(t, n) > 2 * n
  {
    VotesRoundUp(t, n);
    MulMono(n as real, 0.67, t / MAX_THRESHOLD);
  }
}
