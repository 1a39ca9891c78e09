/** Counting votes into a result (base/vote.go). */
module VoteCounting {
  import opened Wrappers
  import opened StringOrder

  datatype VoteResult = NotYet | Draw | Majority

  // ---------------------------------------------------------------- specification

  /** `k` has the most votes of `m`, and is the smallest key among those that have as many. */
  ghost predicate IsTop(m: multiset<string>, k: string) {
    && k in m
    && forall x :: x in m ==> m[x] < m[k] || (m[x] == m[k] && (x == k || Less(k, x)))
  }

  ghost function Top(m: multiset<string>): (k: string)
    requires m != multiset{}
    ensures IsTop(m, k)
  {
    TopExists(m);
    var k :| IsTop(m, k);
    k
  }

  /** What a bag of votes amounts to; no order of the votes or of the keys enters it. */
  ghost function Tally(quorum: nat, threshold: nat, m: multiset<string>): (VoteResult, string) {
    var th := Min(threshold, quorum);
    if m == multiset{} then (NotYet, "")
    else
      var k := Top(m);
      var remain := if |m| < quorum then quorum - |m| else 0;
      if m[k] >= th then (Majority, k)
      else if remain == 0 || m[k] + remain < th then (Draw, "")
      else (NotYet, "")
  }

  // ---------------------------------------------------------------- the code

  method FindVoteResult(quorum: nat, threshold: nat, s: seq<string>) returns (result: VoteResult, key: string)
    ensures (result, key) == Tally(quorum, threshold, multiset(s))
  {
    var th := threshold;
    if th > quorum {
      th := quorum;
    }

    var total := |s|;
    if total == 0 {
      return NotYet, "";
    }
    assert s[0] in multiset(s);

    var remain := 0;
    if total < quorum {
      remain := quorum - total;
    }

    var count := CountVotes(s);
    var maxCount, mhs := MostVoted(count);
    TopUnique(multiset(s), mhs, Top(multiset(s)));

    if maxCount >= th {
      return Majority, mhs;
    }
    if remain == 0 {
      return Draw, "";
    }
    if maxCount + remain < th {
      return Draw, "";
    }
    return NotYet, "";
  }

  /** The first loop of FindVoteResult. */
  method CountVotes(s: seq<string>) returns (count: map<string, nat>)
    ensures forall x :: x in count <==> x in multiset(s)
    ensures forall x :: x in count ==> count[x] == multiset(s)[x]
  {
    count := map[];
    for i := 0 to |s|
      invariant forall x :: x in count <==> x in multiset(s[..i])
      invariant forall x :: x in count ==> count[x] == multiset(s[..i])[x]
    {
      assert s[..i + 1] == s[..i] + [s[i]];
      count := count[s[i] := (if s[i] in count then count[s[i]] else 0) + 1];
    }
    assert s[..|s|] == s;
  }

  /** `mhs` has the most votes among `keys`, the smallest of those that tie. */
  ghost predicate Leads(count: map<string, nat>, keys: set<string>, mhs: string)
    requires keys <= count.Keys
  {
    && mhs in keys
    && forall x :: x in keys ==> count[x] < count[mhs] || (count[x] == count[mhs] && (x == mhs || Less(mhs, x)))
  }

  /** The second loop of FindVoteResult: Go ranges over a map in no particular order. */
  method MostVoted(count: map<string, nat>) returns (maxCount: nat, mhs: string)
    requires count != map[]
    requires forall x :: x in count ==> count[x] > 0
    ensures Leads(count, count.Keys, mhs) && maxCount == count[mhs]
  {
    maxCount, mhs := 0, "";
    var rest := count.Keys;
    while rest != {}
      invariant rest <= count.Keys
      invariant rest == count.Keys ==> maxCount == 0
      invariant rest != count.Keys ==> Leads(count, count.Keys - rest, mhs) && maxCount == count[mhs]
      decreases rest
    {
      var hs :| hs in rest;
      ghost var seen := count.Keys - rest;
      var cn := count[hs];
      rest := rest - {hs};
      assert count.Keys - rest == seen + {hs};
      if cn > maxCount {
        maxCount, mhs := cn, hs;
      } else if cn == maxCount {
        LessTotal(hs, mhs);
        if Less(hs, mhs) {
          LeadsByTie(count, seen, mhs, hs);
          mhs := hs;
        }
      }
    }
    assert count.Keys - rest == count.Keys;
  }

  lemma LeadsByTie(count: map<string, nat>, keys: set<string>, mhs: string, hs: string)
    requires keys <= count.Keys && hs in count && Leads(count, keys, mhs)
    requires count[hs] == count[mhs] && Less(hs, mhs)
    ensures Leads(count, keys + {hs}, hs)
  {
    forall x | x in keys && count[x] == count[mhs]
      ensures Less(hs, x)
    {
      if x != mhs {
        LessTransitive(hs, mhs, x);
      }
    }
  }

  // ---------------------------------------------------------------- the top key

  lemma TopUnique(m: multiset<string>, a: string, b: string)
    requires IsTop(m, a) && IsTop(m, b)
    ensures a == b
  {
    if a != b {
      LessAsymmetric(a, b);
    }
  }

  lemma {:induction false} TopExists(m: multiset<string>)
    requires m != multiset{}
    ensures exists k :: IsTop(m, k)
    decreases |m|
  {
    var x :| x in m;
    var rest := m[x := 0];
    assert forall y :: y != x ==> rest[y] == m[y];
    if rest == multiset{} {
      assert forall y :: y in m ==> y == x;
      assert IsTop(m, x);
    } else {
      assert |rest| == |m| - m[x];
      TopExists(rest);
      var k :| IsTop(rest, k);
      LessTotal(x, k);
      assert forall y :: y in m && y != x ==> y in rest && m[y] == rest[y];
      if m[x] < m[k] || (m[x] == m[k] && Less(k, x)) {
        assert IsTop(m, k);
      } else {
        forall y | y in m && m[y] == m[x] && y != x
          ensures Less(x, y)
        {
          if y != k {
            LessTransitive(x, k, y);
          }
        }
        assert IsTop(m, x);
      }
    }
  }

  /** Two different keys share the votes. */
  lemma TwoKeys(m: multiset<string>, a: string, b: string)
    requires a != b
    ensures m[a] + m[b] <= |m|
  {
    assert |m[a := 0]| == |m| - m[a];
    assert m[a := 0][b] == m[b];
    OneKey(m[a := 0], b);
  }

  lemma OneKey(m: multiset<string>, a: string)
    ensures m[a] <= |m|
  {
    assert |m[a := 0]| == |m| - m[a];
  }

  /** A key with more than half of a full quorum's votes is the top one. */
  lemma OverHalfIsTop(quorum: nat, m: multiset<string>, k: string)
    requires |m| <= quorum < 2 * m[k]
    ensures IsTop(m, k)
  {
    forall x | x in m && x != k
      ensures m[x] < m[k]
    {
      TwoKeys(m, x, k);
    }
  }

  /**
   * What counting answers: a majority as soon as some key has the threshold, a draw as soon as no
   * key can get it any more, and otherwise nothing yet; the key is the smallest of those with most votes.
   */
  lemma VoteResultIff(quorum: nat, threshold: nat, m: multiset<string>)
    ensures var (result, key) := Tally(quorum, threshold, m);
      var th, remain := Min(threshold, quorum), if |m| < quorum then quorum - |m| else 0;
      && (result == Majority <==> exists k :: k in m && m[k] >= th)
      && (result == Draw <==> m != multiset{} && forall k :: k in m ==> m[k] + remain < th)
      && (result == Majority ==> IsTop(m, key))
      && (result != Majority ==> key == "")
  {
    if m != multiset{} {
      var k := Top(m);
      assert k in m && forall x :: x in m ==> m[x] <= m[k];
    }
  }

  // ---------------------------------------------------------------- finality

  /** A majority of more than half the quorum stays with its key, whatever is voted later. */
  lemma MajorityIsFinal(quorum: nat, threshold: nat, m: multiset<string>, more: multiset<string>)
    requires 2 * Max(1, Min(threshold, quorum)) > quorum
    requires |m + more| <= quorum
    requires Tally(quorum, threshold, m).0 == Majority
    ensures Tally(quorum, threshold, m + more) == Tally(quorum, threshold, m)
  {
    var k := Top(m);
    OverHalfIsTop(quorum, m + more, k);
    TopUnique(m + more, k, Top(m + more));
  }

  /** A draw stays a draw; here no lower bound on the threshold is needed. */
  lemma DrawIsFinal(quorum: nat, threshold: nat, m: multiset<string>, more: multiset<string>)
    requires |m + more| <= quorum
    requires Tally(quorum, threshold, m).0 == Draw
    ensures Tally(quorum, threshold, m + more) == (Draw, "")
  {
    var k, k' := Top(m), Top(m + more);
    assert |m + more| == |m| + |more|;
    OneKey(more, k');
    if |m| == quorum {
      assert more == multiset{};
      assert m + more == m;
    } else {
      assert k' in m ==> m[k'] <= m[k];
    }
  }

  /** Votes for one key, `n` times. */
  ghost function Repeat(k: string, n: nat): (m: multiset<string>)
    ensures |m| == n && m[k] == n && forall x :: x in m ==> x == k
  {
    multiset{}[k := n]
  }

  /** With a threshold of at most half the quorum a later tie takes the majority away. */
  lemma MajorityCanFlip(quorum: nat, threshold: nat) returns (m: multiset<string>, more: multiset<string>)
    requires 2 * Max(1, Min(threshold, quorum)) <= quorum
    ensures |m + more| <= quorum
    ensures Tally(quorum, threshold, m) == (Majority, "b")
    ensures Tally(quorum, threshold, m + more) == (Majority, "a")
  {
    var n := Max(1, Min(threshold, quorum));
    m, more := Repeat("b", n), Repeat("a", n);
    assert m["b"] == n && more["a"] == n;
    assert IsTop(m, "b");
    TopUnique(m, "b", Top(m));
    var both := m + more;
    assert both["a"] == n && both["b"] == n && Less("a", "b");
    assert IsTop(both, "a");
    TopUnique(both, "a", Top(both));
  }

  ghost predicate MajorityFinal(quorum: nat, threshold: nat) {
    forall m, more :: |m + more| <= quorum && Tally(quorum, threshold, m).0 == Majority ==>
      Tally(quorum, threshold, m + more) == Tally(quorum, threshold, m)
  }

  /** Majorities are final exactly for thresholds above half the quorum. */
  lemma MajorityFinalIff(quorum: nat, threshold: nat)
    ensures MajorityFinal(quorum, threshold) <==> 2 * Max(1, Min(threshold, quorum)) > quorum
  {
    if 2 * Max(1, Min(threshold, quorum)) > quorum {
      forall m, more | |m + more| <= quorum && Tally(quorum, threshold, m).0 == Majority
        ensures Tally(quorum, threshold, m + more) == Tally(quorum, threshold, m)
      {
        MajorityIsFinal(quorum, threshold, m, more);
      }
    } else {
      var m, more := MajorityCanFlip(quorum, threshold);
      assert Tally(quorum, threshold, m + more) != Tally(quorum, threshold, m);
    }
  }

  // ---------------------------------------------------------------- exactness

  /** `more` fills `m` up to the quorum and the outcome is then `r`. */
  ghost predicate Completes(quorum: nat, threshold: nat, m: multiset<string>, more: multiset<string>, r: VoteResult) {
    |m + more| == quorum && Tally(quorum, threshold, m + more).0 == r
  }

  /** Counting is undecided exactly as long as both a majority and a draw can still come about. */
  lemma NotYetIff(quorum: nat, threshold: nat, m: multiset<string>)
    requires m != multiset{} && |m| < quorum
    ensures Tally(quorum, threshold, m).0 == NotYet <==>
              && (exists more :: Completes(quorum, threshold, m, more, Majority))
              && (exists more :: Completes(quorum, threshold, m, more, Draw))
  {
    var th := Min(threshold, quorum);
    var remain := quorum - |m|;
    var k := Top(m);
    if Tally(quorum, threshold, m).0 == NotYet {
      ToMajority(quorum, threshold, m);
      var more := Fresh(m, remain);
      var k' := Top(m + more);
      assert (m + more)[k'] == m[k'] + more[k'];
      assert m[k] >= 1;
      assert Completes(quorum, threshold, m, more, Draw);
    } else if Tally(quorum, threshold, m).0 == Majority {
      forall more | |m + more| == quorum
        ensures Tally(quorum, threshold, m + more).0 == Majority
      {
        assert (m + more)[k] >= m[k];
        assert k in m + more;
        assert (m + more)[Top(m + more)] >= (m + more)[k];
      }
    } else {
      forall more | |m + more| == quorum
        ensures Tally(quorum, threshold, m + more).0 == Draw
      {
        DrawIsFinal(quorum, threshold, m, more);
      }
    }
  }

  /** If the threshold is still in reach, everyone else can give the top key its majority. */
  lemma ToMajority(quorum: nat, threshold: nat, m: multiset<string>)
    requires m != multiset{} && |m| < quorum
    requires m[Top(m)] + (quorum - |m|) >= Min(threshold, quorum)
    ensures exists more :: Completes(quorum, threshold, m, more, Majority)
  {
    var k := Top(m);
    var more := Repeat(k, quorum - |m|);
    assert |m + more| == |m| + |more|;
    assert (m + more)[k] == m[k] + more[k];
    assert k in m + more;
    assert (m + more)[Top(m + more)] >= (m + more)[k];
    assert Completes(quorum, threshold, m, more, Majority);
  }

  /** `n` votes for as many new keys, one each. */
  lemma {:induction false} Fresh(m: multiset<string>, n: nat) returns (more: multiset<string>)
    ensures |more| == n
    ensures forall x :: more[x] <= 1 && (x in more ==> x !in m)
  {
    if n == 0 {
      more := multiset{};
    } else {
      more := Fresh(m, n - 1);
      var x := Unused(m + more);
      assert more[x] == 0;
      more := more[x := 1];
    }
  }

  lemma Unused(m: multiset<string>) returns (x: string)
    ensures x !in m
  {
    var keys := set k | k in m;
    x := LongerThanAll(keys);
  }

  lemma {:induction false} LongerThanAll(keys: set<string>) returns (x: string)
    ensures forall k :: k in keys ==> |k| < |x|
    decreases keys
  {
    if keys == {} {
      x := "";
    } else {
      var k :| k in keys;
      var y := LongerThanAll(keys - {k});
      x := y + k + "x";
    }
  }
}
