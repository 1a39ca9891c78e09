/** The safety argument: validated majorities share signers, and how many. */
module QuorumIntersection {
  import opened Wrappers
  import opened Sequences
  import opened Thresholds
  import opened Suffrages
  import opened VoteCounting
  import opened Voteproofs

  /** The nodes whose signed fact has this hash. */
  function SignersOf(sfs: seq<BallotSignFact>, hash: string): set<string> {
    set sf | sf in sfs && sf.fact.hash == hash :: sf.node
  }

  /** The nodes that voted for the majority of a voteproof. */
  function Voters(vp: Voteproof): set<string>
    requires vp.majority.Some?
  {
    SignersOf(vp.signFacts, vp.majority.value.hash)
  }

  /** With one sign fact a node, counting hashes counts nodes. */
  lemma {:induction false} CountIsSigners(sfs: seq<BallotSignFact>, hash: string)
    requires Distinct(SignNodes(sfs))
    ensures |SignersOf(sfs, hash)| == multiset(FactHashes(sfs))[hash]
  {
    if sfs == [] {
      assert SignersOf(sfs, hash) == {};
    } else {
      var sf, rest := sfs[0], sfs[1..];
      assert SignNodes(rest) == SignNodes(sfs)[1..];
      CountIsSigners(rest, hash);
      assert FactHashes(sfs) == [sf.fact.hash] + FactHashes(rest);
      SignersOfFirst(sfs, hash);
      NotInRest(sfs);
    }
  }

  lemma SignersOfFirst(sfs: seq<BallotSignFact>, hash: string)
    requires sfs != []
    ensures SignersOf(sfs, hash) ==
            (if sfs[0].fact.hash == hash then {sfs[0].node} else {}) + SignersOf(sfs[1..], hash)
  {
    assert sfs == [sfs[0]] + sfs[1..];
  }

  lemma NotInRest(sfs: seq<BallotSignFact>)
    requires sfs != [] && Distinct(SignNodes(sfs))
    ensures forall sf :: sf in sfs[1..] ==> sf.node != sfs[0].node
  {
    forall sf | sf in sfs[1..]
      ensures sf.node != sfs[0].node
    {
      var i :| 1 <= i < |sfs| && sfs[i] == sf;
      assert SignNodes(sfs)[0] != SignNodes(sfs)[i];
    }
  }

  /** Two subsets of a set of n overlap in what they have beyond n. */
  lemma Overlap<T>(a: set<T>, b: set<T>, all: set<T>)
    requires a <= all && b <= all
    ensures |a * b| >= |a| + |b| - |all|
  {
    assert |a + b| + |a * b| == |a| + |b|;
    SubsetCard(a + b, all);
  }

  lemma MembersCard(suf: Suffrage)
    requires suf.Valid()
    ensures |suf.Members()| == suf.Len()
  {
    DistinctCard(Addresses(suf.ns));
  }

  /** Recounting a majority finds at least the threshold of members behind it. */
  lemma VotersOfMembers(vp: Voteproof, suf: Suffrage, th: Percent)
    requires suf.Valid() && Thresholds.IsValid(th)
    requires Distinct(SignNodes(vp.signFacts))
    requires !vp.kind.Stuck? && vp.result == Majority && ValidWithMembers(vp, suf, th)
    ensures vp.majority.Some?
    ensures Voters(vp) <= suf.Members()
    ensures |Voters(vp)| >= Votes(th, suf.Len())
  {
    CountIsSigners(vp.signFacts, vp.majority.value.hash);
    VotesOfValid(th, suf.Len());
  }

  lemma FullSubset<T>(a: set<T>, b: set<T>)
    requires a <= b && |a| >= |b|
    ensures a == b
  {
    assert |b - a| == |b| - |a|;
  }

  // ---------------------------------------------------------------- what validates

  /** Above half the quorum, a key is the counted majority exactly when the threshold voted for it. */
  lemma MajorityOf(quorum: nat, threshold: nat, m: multiset<string>, k: string)
    requires |m| <= quorum < 2 * threshold && threshold <= quorum
    ensures Tally(quorum, threshold, m) == (Majority, k) <==> m[k] >= threshold
  {
    if m[k] >= threshold {
      OverHalfIsTop(quorum, m, k);
      TopUnique(m, k, Top(m));
    }
  }

  lemma NoMoreThanMembers(vp: Voteproof, suf: Suffrage)
    requires suf.Valid() && Distinct(SignNodes(vp.signFacts)) && SignedByMembers(vp, suf)
    ensures |vp.signFacts| <= suf.Len()
  {
    var nodes := SignNodes(vp.signFacts);
    forall a | a in ToSet(nodes)
      ensures a in suf.Members()
    {
      var i :| 0 <= i < |nodes| && nodes[i] == a;
      assert vp.signFacts[i] in vp.signFacts;
    }
    DistinctCard(nodes);
    MembersCard(suf);
    SubsetCard(ToSet(nodes), suf.Members());
  }

  lemma MembersAcceptIff(vp: Voteproof, suf: Suffrage, th: Percent)
    requires suf.Valid() && Thresholds.IsValid(th) && Valid(vp) && !vp.kind.Stuck? && vp.result == Majority
    ensures ValidWithMembers(vp, suf, th) <==>
              SignedByMembers(vp, suf) && |Voters(vp)| >= Votes(th, suf.Len())
  {
    if SignedByMembers(vp, suf) {
      var k := vp.majority.value.hash;
      NoMoreThanMembers(vp, suf);
      CountIsSigners(vp.signFacts, k);
      VotesOfValid(th, suf.Len());
      MajorityOf(suf.Len(), Votes(th, suf.Len()), multiset(FactHashes(vp.signFacts)), k);
    }
  }

  /** A majority is validated exactly when members signed it, and enough of them its fact. */
  lemma PlainAcceptedIff(vp: Voteproof, suf: Suffrage)
    requires suf.Valid() && Valid(vp) && vp.kind.Plain? && vp.result == Majority
    ensures ValidWithSuffrage(vp, suf) <==>
              SignedByMembers(vp, suf) && |Voters(vp)| >= Votes(vp.threshold, suf.Len())
  {
    MembersAcceptIff(vp, suf, vp.threshold);
  }

  /** The index of a suffrage finds each of its nodes. */
  lemma NodeIsIndexed(suf: Suffrage, x: Node)
    requires suf.Valid() && x in suf.ns
    ensures x.address in suf.m && suf.m[x.address] == x
  {
    var i :| 0 <= i < |suf.ns| && suf.ns[i] == x;
    assert Addresses(suf.ns)[i] == x.address;
    AddressMapEntry(suf.ns, x.address);
    var j :| 0 <= j < |suf.ns| && suf.ns[j] == suf.m[x.address];
    assert Addresses(suf.ns)[j] == x.address;
  }

  lemma SameKeys(suf: Suffrage, rsuf: Suffrage, out: set<string>)
    requires suf.Valid() && rsuf.Valid() && rsuf.ns == Remaining(suf.ns, out)
    ensures forall a, pub :: rsuf.ExistsPublickey(a, pub) <==> suf.ExistsPublickey(a, pub) && a !in out
  {
    RemainingAre(suf.ns, out);
    RemainingMembers(suf.ns, out);
    assert rsuf.m.Keys == suf.m.Keys - out;
    forall a | a in rsuf.m
      ensures suf.m[a] == rsuf.m[a]
    {
      AddressMapEntry(rsuf.ns, a);
      NodeIsIndexed(suf, rsuf.m[a]);
    }
  }

  /** Somebody is left, and every expel has enough signs. */
  predicate ExpelsSigned(vp: Voteproof, suf: Suffrage) {
    && |vp.expels| < suf.Len()
    && forall op :: op in vp.expels ==>
         |op.NodeSigns()| >= ExpelThreshold(vp.threshold, suf.Len(), |vp.expels|)
  }

  lemma ExpelledAreMembers(vp: Voteproof, suf: Suffrage)
    requires suf.Valid() && ExpelsKnown(vp, suf)
    ensures ToSet(ExpelNodes(vp.Expels())) <= suf.Members()
  {
    forall a | a in ExpelNodes(vp.Expels())
      ensures a in suf.Members()
    {
      var i :| 0 <= i < |vp.Expels()| && ExpelNodes(vp.Expels())[i] == a;
      assert vp.Expels()[i] in vp.Expels();
    }
  }

  lemma SignedByRest(vp: Voteproof, suf: Suffrage, rsuf: Suffrage)
    requires suf.Valid() && rsuf.Valid() && rsuf.ns == Remaining(suf.ns, ToSet(ExpelNodes(vp.expels)))
    requires ValidExpels(vp)
    ensures SignedByMembers(vp, rsuf) <==> SignedByMembers(vp, suf)
  {
    SameKeys(suf, rsuf, ToSet(ExpelNodes(vp.expels)));
  }

  /** At the maximal threshold everybody has to vote for the majority. */
  lemma AllAcceptIff(vp: Voteproof, rsuf: Suffrage)
    requires rsuf.Valid() && Valid(vp) && vp.kind.Expel? && vp.result == Majority
    ensures ValidWithMembers(vp, rsuf, MAX_THRESHOLD) <==>
              SignedByMembers(vp, rsuf) && Voters(vp) == rsuf.Members()
  {
    MembersAcceptIff(vp, rsuf, MAX_THRESHOLD);
    VotesAtMax(rsuf.Len());
    MembersCard(rsuf);
    if SignedByMembers(vp, rsuf) && |Voters(vp)| >= rsuf.Len() {
      VotersOfMembers(vp, rsuf, MAX_THRESHOLD);
      FullSubset(Voters(vp), rsuf.Members());
    }
  }

  /** With expels, exactly when they are known and signed enough, and all the others voted for it. */
  lemma ExpelAcceptedIff(vp: Voteproof, suf: Suffrage)
    requires suf.Valid() && Valid(vp) && vp.kind.Expel? && vp.result == Majority
    ensures ValidWithSuffrage(vp, suf) <==>
              && ExpelsKnown(vp, suf) && ExpelsSigned(vp, suf) && SignedByMembers(vp, suf)
              && Voters(vp) == suf.Members() - ToSet(ExpelNodes(vp.expels))
  {
    if ExpelsKnown(vp, suf) {
      ExpelledAreMembers(vp, suf);
      ExpelsAccepted(suf, vp.threshold, vp.expels);
      AllOrFewer(suf, ExpelNodes(vp.expels));
      var r := SuffrageWithExpels(suf, vp.threshold, vp.expels);
      assert r.Ok? <==> ExpelsSigned(vp, suf);
      if r.Ok? {
        SignedByRest(vp, suf, r.value);
        AllAcceptIff(vp, r.value);
      }
    }
  }

  lemma VotersOfPlain(vp: Voteproof, suf: Suffrage)
    requires suf.Valid() && Valid(vp) && vp.kind.Plain?
    requires vp.result == Majority && ValidWithSuffrage(vp, suf)
    ensures Voters(vp) <= suf.Members()
    ensures |Voters(vp)| >= Votes(vp.threshold, suf.Len())
  {
    VotersOfMembers(vp, suf, vp.threshold);
  }

  /** With expels everyone who is not expelled voted for the majority. */
  lemma VotersOfExpel(vp: Voteproof, suf: Suffrage)
    requires suf.Valid() && Valid(vp) && vp.kind.Expel?
    requires vp.result == Majority && ValidWithSuffrage(vp, suf)
    ensures ToSet(ExpelNodes(vp.expels)) <= suf.Members()
    ensures |ToSet(ExpelNodes(vp.expels))| == |vp.expels| < suf.Len()
    ensures Voters(vp) == suf.Members() - ToSet(ExpelNodes(vp.expels))
  {
    ExpelAcceptedIff(vp, suf);
    ExpelledAreMembers(vp, suf);
    DistinctCard(ExpelNodes(vp.expels));
  }

  // ---------------------------------------------------------------- there are such voteproofs

  function AllSign(nodes: seq<Node>, fact: BallotFact): (r: seq<BallotSignFact>)
    ensures |r| == |nodes|
  {
    seq(|nodes|, i requires 0 <= i < |nodes| => BallotSignFact(nodes[i].address, nodes[i].publickey, fact))
  }

  /** Everybody who is not in `absent` signs `fact`. */
  function VoteWithout(suf: Suffrage, th: Percent, fact: BallotFact, expels: seq<ExpelOperation>, absent: set<string>)
    : Voteproof
  {
    Voteproof("vp", if expels == [] then Plain else Expel, fact.point, Majority, th, Some(fact),
              AllSign(Remaining(suf.ns, absent), fact), expels)
  }

  /** Everybody who is not expelled signs `fact`. */
  function Unanimous(suf: Suffrage, th: Percent, fact: BallotFact, expels: seq<ExpelOperation>): Voteproof {
    VoteWithout(suf, th, fact, expels, ToSet(ExpelNodes(expels)))
  }

  lemma VoteWithoutIsValid(suf: Suffrage, th: Percent, fact: BallotFact, expels: seq<ExpelOperation>, absent: set<string>)
    requires suf.Valid() && Thresholds.IsValid(th)
    requires fact.point.stage.CanVote() && fact.point.point.IsValid()
    requires Distinct(ExpelNodes(expels)) && forall op :: op in expels ==> op.NodeSigns() != []
    requires ToSet(ExpelNodes(expels)) <= absent < suf.Members()
    ensures var vp := VoteWithout(suf, th, fact, expels, absent);
      && Valid(vp) && SignedByMembers(vp, suf)
      && Voters(vp) == suf.Members() - absent
      && forall sf :: sf in vp.signFacts ==> sf.node !in absent && sf.fact == fact
  {
    var vp := VoteWithout(suf, th, fact, expels, absent);
    var left := LeftOver(suf, absent);
    RemainingAre(suf.ns, absent);
    AllSignMembers(suf, left, fact);
    assert SignNodes(vp.signFacts) == Addresses(left);
    assert vp.signFacts[0] in vp.signFacts;
    assert forall a :: a in ExpelNodes(expels) ==> a in absent;
  }

  lemma LeftOver(suf: Suffrage, absent: set<string>) returns (left: seq<Node>)
    requires suf.Valid() && absent < suf.Members()
    ensures left == Remaining(suf.ns, absent) != []
    ensures Distinct(Addresses(left))
    ensures ToSet(Addresses(left)) == suf.Members() - absent
    ensures forall a :: a in Addresses(left) ==> a !in absent
  {
    left := Remaining(suf.ns, absent);
    RemainingDistinct(suf.ns, absent);
    RemainingMembers(suf.ns, absent);
    assert forall a :: a in Addresses(left) ==> a in ToSet(Addresses(left));
    var a :| a in suf.Members() && a !in absent;
    assert a in ToSet(Addresses(left));
  }

  /** When all the others agree, expels that are known and signed enough make a valid voteproof; so do none. */
  lemma UnanimousIsAccepted(suf: Suffrage, th: Percent, fact: BallotFact, expels: seq<ExpelOperation>)
    requires suf.Valid() && Thresholds.IsValid(th)
    requires fact.point.stage.CanVote() && fact.point.point.IsValid()
    requires Distinct(ExpelNodes(expels)) && forall op :: op in expels ==> op.NodeSigns() != []
    requires var vp := Unanimous(suf, th, fact, expels);
      ExpelsKnown(vp, suf) && ExpelsSigned(vp, suf)
    ensures var vp := Unanimous(suf, th, fact, expels);
      Valid(vp) && ValidWithSuffrage(vp, suf) && Voters(vp) == suf.Members() - ToSet(ExpelNodes(expels))
  {
    var vp := Unanimous(suf, th, fact, expels);
    ExpelledAreMembers(vp, suf);
    AllOrFewer(suf, ExpelNodes(expels));
    VoteWithoutIsValid(suf, th, fact, expels, ToSet(ExpelNodes(expels)));
    if expels == [] {
      MembersCard(suf);
      VotesOfValid(th, suf.Len());
      PlainAcceptedIff(vp, suf);
    } else {
      ExpelAcceptedIff(vp, suf);
    }
  }

  lemma AllSignMembers(suf: Suffrage, left: seq<Node>, fact: BallotFact)
    requires suf.Valid() && forall x :: x in left ==> x in suf.ns
    ensures SignersOf(AllSign(left, fact), fact.hash) == ToSet(Addresses(left))
    ensures forall sf :: sf in AllSign(left, fact) ==> suf.ExistsPublickey(sf.node, sf.signer)
    ensures forall sf :: sf in AllSign(left, fact) ==> sf.fact == fact && sf.node in Addresses(left)
  {
    var sfs := AllSign(left, fact);
    forall a | a in Addresses(left)
      ensures a in SignersOf(sfs, fact.hash)
    {
      var i :| 0 <= i < |left| && Addresses(left)[i] == a;
      assert sfs[i] in sfs && sfs[i].node == a;
    }
    forall sf | sf in sfs
      ensures suf.ExistsPublickey(sf.node, sf.signer) && sf.fact == fact && sf.node in Addresses(left)
    {
      var i :| 0 <= i < |left| && sfs[i] == sf;
      assert left[i] in left && Addresses(left)[i] == sf.node;
      NodeIsIndexed(suf, left[i]);
    }
  }

  // ---------------------------------------------------------------- draws and stuck voteproofs

  /** No fact has `asked` signers, or can still get them from the rest of `n` nodes. */
  ghost predicate NobodyCanWin(sfs: seq<BallotSignFact>, n: int, asked: nat) {
    forall hash: string :: |SignersOf(sfs, hash)| + (n - |sfs|) < asked
  }

  lemma NobodyWinsIff(sfs: seq<BallotSignFact>, n: nat, asked: nat)
    requires Distinct(SignNodes(sfs)) && sfs != [] && |sfs| <= n && asked <= n
    ensures Tally(n, asked, multiset(FactHashes(sfs))).0 == Draw <==> NobodyCanWin(sfs, n, asked)
  {
    var hashes := FactHashes(sfs);
    var m := multiset(hashes);
    VoteResultIff(n, asked, m);
    assert hashes[0] in m;
    forall hash
      ensures |SignersOf(sfs, hash)| == m[hash]
    {
      CountIsSigners(sfs, hash);
    }
    if NobodyCanWin(sfs, n, asked) {
      forall k | k in m
        ensures m[k] + (n - |m|) < asked
      {
        assert |SignersOf(sfs, k)| + (n - |sfs|) < asked;
      }
    } else {
      var hash: string :| |SignersOf(sfs, hash)| + (n - |sfs|) >= asked;
      if hash !in m {
        assert m[hashes[0]] + (n - |m|) >= asked;
      }
    }
  }

  lemma MembersAcceptDrawIff(vp: Voteproof, suf: Suffrage, th: Percent)
    requires suf.Valid() && Thresholds.IsValid(th) && Valid(vp) && !vp.kind.Stuck? && vp.result == Draw
    ensures ValidWithMembers(vp, suf, th) <==>
              SignedByMembers(vp, suf) && NobodyCanWin(vp.signFacts, suf.Len(), Votes(th, suf.Len()))
  {
    if SignedByMembers(vp, suf) {
      NoMoreThanMembers(vp, suf);
      VotesOfValid(th, suf.Len());
      NobodyWinsIff(vp.signFacts, suf.Len(), Votes(th, suf.Len()));
      assert ValidVoteResult(vp);
    }
  }

  /** A draw is validated exactly when members signed it, and none of its facts can get a majority any more. */
  lemma DrawAcceptedIff(vp: Voteproof, suf: Suffrage)
    requires suf.Valid() && Valid(vp) && vp.kind.Plain? && vp.result == Draw
    ensures ValidWithSuffrage(vp, suf) <==>
              && SignedByMembers(vp, suf)
              && NobodyCanWin(vp.signFacts, suf.Len(), Votes(vp.threshold, suf.Len()))
  {
    MembersAcceptDrawIff(vp, suf, vp.threshold);
  }

  lemma AllAcceptDrawIff(vp: Voteproof, rsuf: Suffrage)
    requires rsuf.Valid() && Valid(vp) && vp.kind.Expel? && vp.result == Draw
    ensures ValidWithMembers(vp, rsuf, MAX_THRESHOLD) <==>
              SignedByMembers(vp, rsuf) && NobodyCanWin(vp.signFacts, rsuf.Len(), rsuf.Len())
  {
    MembersAcceptDrawIff(vp, rsuf, MAX_THRESHOLD);
    VotesAtMax(rsuf.Len());
  }

  /** With expels, exactly when they are known and signed enough, and the others cannot all agree any more. */
  lemma ExpelDrawAcceptedIff(vp: Voteproof, suf: Suffrage)
    requires suf.Valid() && Valid(vp) && vp.kind.Expel? && vp.result == Draw
    ensures var left := suf.Len() - |vp.expels|;
      ValidWithSuffrage(vp, suf) <==>
        && ExpelsKnown(vp, suf) && ExpelsSigned(vp, suf) && SignedByMembers(vp, suf)
        && NobodyCanWin(vp.signFacts, left, left)
  {
    if ExpelsKnown(vp, suf) {
      ExpelledAreMembers(vp, suf);
      ExpelsAccepted(suf, vp.threshold, vp.expels);
      AllOrFewer(suf, ExpelNodes(vp.expels));
      var r := SuffrageWithExpels(suf, vp.threshold, vp.expels);
      assert r.Ok? <==> ExpelsSigned(vp, suf);
      if r.Ok? {
        SignedByRest(vp, suf, r.value);
        AllAcceptDrawIff(vp, r.value);
      }
    }
  }

  /** The nodes that signed anything. */
  function SigningNodes(vp: Voteproof): set<string> {
    ToSet(SignNodes(vp.signFacts))
  }

  /**
   * A stuck voteproof is validated exactly when its expels are known and signed enough for the
   * maximal threshold, and exactly all the others signed, whatever they signed.
   */
  lemma StuckAcceptedIff(vp: Voteproof, suf: Suffrage)
    requires suf.Valid() && Valid(vp) && vp.kind.Stuck?
    ensures ValidWithSuffrage(vp, suf) <==>
              && ExpelsKnown(vp, suf) && ExpelsSigned(vp, suf) && SignedByMembers(vp, suf)
              && SigningNodes(vp) == suf.Members() - ToSet(ExpelNodes(vp.expels))
  {
    if ExpelsKnown(vp, suf) {
      ExpelledAreMembers(vp, suf);
      ExpelsAccepted(suf, vp.threshold, vp.expels);
      AllOrFewer(suf, ExpelNodes(vp.expels));
      var r := SuffrageWithExpels(suf, vp.threshold, vp.expels);
      assert r.Ok? <==> ExpelsSigned(vp, suf);
      if r.Ok? {
        SignedByRest(vp, suf, r.value);
        if SignedByMembers(vp, suf) {
          AllOthersSigned(vp, suf);
        }
      }
    }
  }

  lemma AllOthersSigned(vp: Voteproof, suf: Suffrage)
    requires suf.Valid() && Distinct(SignNodes(vp.signFacts)) && SignedByMembers(vp, suf) && ValidExpels(vp)
    requires ToSet(ExpelNodes(vp.expels)) <= suf.Members()
    ensures suf.Len() == |vp.signFacts| + |vp.expels| <==>
              SigningNodes(vp) == suf.Members() - ToSet(ExpelNodes(vp.expels))
  {
    var out := ToSet(ExpelNodes(vp.expels));
    DistinctCard(SignNodes(vp.signFacts));
    DistinctCard(ExpelNodes(vp.expels));
    MembersCard(suf);
    assert |suf.Members() - out| == |suf.Members()| - |out|;
    forall a | a in SigningNodes(vp)
      ensures a in suf.Members() - out
    {
      var i :| 0 <= i < |vp.signFacts| && SignNodes(vp.signFacts)[i] == a;
      assert vp.signFacts[i] in vp.signFacts;
    }
    if |SigningNodes(vp)| >= |suf.Members() - out| {
      FullSubset(SigningNodes(vp), suf.Members() - out);
    }
  }

  // ---------------------------------------------------------------- main results

  /**
   * Two majorities without expels on one suffrage share at least th1 + th2 - n voters:
   * always one, and from the safe threshold on more than the number of faulty nodes.
   * If their facts differ, every shared voter signed both.
   */
  lemma QuorumsIntersect(vp1: Voteproof, vp2: Voteproof, suf: Suffrage)
    requires suf.Valid()
    requires Valid(vp1) && vp1.kind.Plain? && vp1.result == Majority && ValidWithSuffrage(vp1, suf)
    requires Valid(vp2) && vp2.kind.Plain? && vp2.result == Majority && ValidWithSuffrage(vp2, suf)
    ensures var both := Voters(vp1) * Voters(vp2);
      var n := suf.Len();
      && both <= suf.Members()
      && |both| >= Votes(vp1.threshold, n) + Votes(vp2.threshold, n) - n >= 1
      && (vp1.threshold >= SAFE_THRESHOLD && vp2.threshold >= SAFE_THRESHOLD ==>
            && |both| > NumberOfFaultyNodes(n, vp1.threshold)
            && |both| > NumberOfFaultyNodes(n, vp2.threshold))
  {
    var n := suf.Len();
    VotersOfPlain(vp1, suf);
    VotersOfPlain(vp2, suf);
    MembersCard(suf);
    Overlap(Voters(vp1), Voters(vp2), suf.Members());
    VotesOfValid(vp1.threshold, n);
    VotesOfValid(vp2.threshold, n);
    if vp1.threshold >= SAFE_THRESHOLD && vp2.threshold >= SAFE_THRESHOLD {
      SafeQuorumsBeatFaulty(vp1.threshold, vp2.threshold, n);
    }
  }

  /** Nobody signs two different facts. */
  predicate NoDoubleSigning(vp1: Voteproof, vp2: Voteproof) {
    forall x, y :: x in vp1.signFacts && y in vp2.signFacts && x.node == y.node ==> x.fact.hash == y.fact.hash
  }

  lemma SharedVoter(vp1: Voteproof, vp2: Voteproof)
    requires vp1.majority.Some? && vp2.majority.Some? && NoDoubleSigning(vp1, vp2)
    requires Voters(vp1) * Voters(vp2) != {}
    ensures vp1.majority.value.hash == vp2.majority.value.hash
  {
    var a :| a in Voters(vp1) * Voters(vp2);
    var x :| x in vp1.signFacts && x.fact.hash == vp1.majority.value.hash && x.node == a;
    var y :| y in vp2.signFacts && y.fact.hash == vp2.majority.value.hash && y.node == a;
  }

  /** Hence, if no node signs two facts, two majorities without expels agree. */
  lemma MajoritiesAgree(vp1: Voteproof, vp2: Voteproof, suf: Suffrage)
    requires suf.Valid()
    requires Valid(vp1) && vp1.kind.Plain? && vp1.result == Majority && ValidWithSuffrage(vp1, suf)
    requires Valid(vp2) && vp2.kind.Plain? && vp2.result == Majority && ValidWithSuffrage(vp2, suf)
    requires NoDoubleSigning(vp1, vp2)
    ensures vp1.majority.value.hash == vp2.majority.value.hash
  {
    QuorumsIntersect(vp1, vp2, suf);
    SharedVoter(vp1, vp2);
  }

  /** A majority with k expels shares at least th - k voters with a plain majority. */
  lemma ExpelMeetsPlain(evp: Voteproof, vp: Voteproof, suf: Suffrage)
    requires suf.Valid()
    requires Valid(evp) && evp.kind.Expel? && evp.result == Majority && ValidWithSuffrage(evp, suf)
    requires Valid(vp) && vp.kind.Plain? && vp.result == Majority && ValidWithSuffrage(vp, suf)
    ensures Voters(evp) * Voters(vp) == Voters(vp) - ToSet(ExpelNodes(evp.expels))
    ensures |Voters(evp) * Voters(vp)| >= Votes(vp.threshold, suf.Len()) - |evp.expels|
  {
    var out := ToSet(ExpelNodes(evp.expels));
    VotersOfExpel(evp, suf);
    VotersOfPlain(vp, suf);
    Without(Voters(vp), suf.Members(), out);
  }

  lemma Without<T>(a: set<T>, all: set<T>, out: set<T>)
    requires a <= all
    ensures (all - out) * a == a - out
    ensures |a - out| >= |a| - |out|
  {
    SubsetCard(a * out, out);
    assert |a - out| == |a| - |a * out|;
  }

  /** Two majorities with expels share exactly the members that neither expels. */
  lemma ExpelMeetsExpel(vp1: Voteproof, vp2: Voteproof, suf: Suffrage)
    requires suf.Valid()
    requires Valid(vp1) && vp1.kind.Expel? && vp1.result == Majority && ValidWithSuffrage(vp1, suf)
    requires Valid(vp2) && vp2.kind.Expel? && vp2.result == Majority && ValidWithSuffrage(vp2, suf)
    ensures Voters(vp1) * Voters(vp2) ==
            suf.Members() - ToSet(ExpelNodes(vp1.expels)) - ToSet(ExpelNodes(vp2.expels))
    ensures |Voters(vp1) * Voters(vp2)| >= suf.Len() - |vp1.expels| - |vp2.expels|
  {
    VotersOfExpel(vp1, suf);
    VotersOfExpel(vp2, suf);
    MembersCard(suf);
    WithoutBoth(suf.Members(), ToSet(ExpelNodes(vp1.expels)), ToSet(ExpelNodes(vp2.expels)));
  }

  lemma WithoutBoth<T>(all: set<T>, a: set<T>, b: set<T>)
    requires a <= all && b <= all
    ensures (all - a) * (all - b) == all - a - b
    ensures |all - a - b| >= |all| - |a| - |b|
  {
    assert |all - a| == |all| - |a|;
    SubsetCard((all - a) * b, b);
    assert |all - a - b| == |all - a| - |(all - a) * b|;
  }
}
