/**
 * Do validated majorities agree when some of them expel nodes? (isaac/voteproof_isvalid.go,
 * isaac/suffrage.go)
 */
module MajorityAgreement {
  import opened Wrappers
  import opened Sequences
  import opened Points
  import opened Thresholds
  import opened Suffrages
  import opened VoteCounting
  import opened Voteproofs
  import opened QuorumIntersection
  import opened ExpelPools
  import opened ExpelSearch
  import opened ExpelVoting

  /** A validated majority for the point `at` that expels with `expels`, or does not if there are none. */
  ghost predicate MajorityWith(vp: Voteproof, suf: Suffrage, at: StagePoint, t: Percent, expels: seq<ExpelOperation>) {
    && Valid(vp) && !vp.kind.Stuck? && vp.result == Majority && ValidWithSuffrage(vp, suf)
    && vp.point == at && vp.threshold == t && vp.Expels() == expels
  }

  /** No two such majorities differ unless somebody signs two facts. */
  ghost predicate Agreement(suf: Suffrage, at: StagePoint,
                            t1: Percent, e1: seq<ExpelOperation>, t2: Percent, e2: seq<ExpelOperation>) {
    forall vp1, vp2 ::
      MajorityWith(vp1, suf, at, t1, e1) && MajorityWith(vp2, suf, at, t2, e2) && NoDoubleSigning(vp1, vp2) ==>
        vp1.majority.value.hash == vp2.majority.value.hash
  }

  /** The operations may be part of a voteproof for this point: they are known, and signed enough. */
  predicate Usable(suf: Suffrage, at: StagePoint, t: Percent, expels: seq<ExpelOperation>) {
    && Thresholds.IsValid(t) && at.stage.CanVote() && at.point.IsValid()
    && Distinct(ExpelNodes(expels))
    && |expels| < suf.Len()
    && forall op :: op in expels ==>
         && op.NodeSigns() != []
         && IsValidExpelWithSuffrage(at.point.h, op, suf) == None
         && |op.NodeSigns()| >= ExpelThreshold(t, suf.Len(), |expels|)
  }

  /** Nobody has to vote for both: the two sides expel everyone, or the expelled make a quorum. */
  predicate Collide(suf: Suffrage, t1: Percent, e1: seq<ExpelOperation>, t2: Percent, e2: seq<ExpelOperation>) {
    if e1 == [] && e2 == [] then false
    else if e2 == [] then |e1| >= Votes(t2, suf.Len())
    else if e1 == [] then |e2| >= Votes(t1, suf.Len())
    else ToSet(ExpelNodes(e1)) + ToSet(ExpelNodes(e2)) == suf.Members()
  }

  // ---------------------------------------------------------------- where majorities meet

  /** The voters of a majority are members that it does not expel, and as many as it asks for. */
  lemma VotersOfMajority(vp: Voteproof, suf: Suffrage)
    requires suf.Valid() && Valid(vp) && !vp.kind.Stuck? && vp.result == Majority && ValidWithSuffrage(vp, suf)
    ensures vp.majority.Some? && Voters(vp) <= suf.Members()
    ensures |Voters(vp)| >= if vp.Expels() == [] then Votes(vp.threshold, suf.Len()) else suf.Len() - |vp.Expels()|
  {
    if vp.kind.Plain? {
      VotersOfPlain(vp, suf);
    } else {
      VotersOfExpel(vp, suf);
      MembersCard(suf);
    }
  }

  /** Two majorities have a voter in common. */
  ghost predicate Meet(vp1: Voteproof, vp2: Voteproof) {
    vp1.majority.Some? && vp2.majority.Some? && exists a :: a in Voters(vp1) && a in Voters(vp2)
  }

  lemma PlainMeetsPlain(vp1: Voteproof, vp2: Voteproof, suf: Suffrage)
    requires suf.Valid()
    requires Valid(vp1) && vp1.kind.Plain? && vp1.result == Majority && ValidWithSuffrage(vp1, suf)
    requires Valid(vp2) && vp2.kind.Plain? && vp2.result == Majority && ValidWithSuffrage(vp2, suf)
    ensures Meet(vp1, vp2)
  {
    QuorumsIntersect(vp1, vp2, suf);
    var a :| a in Voters(vp1) * Voters(vp2);
    assert a in Voters(vp1) && a in Voters(vp2);
  }

  lemma ExpelMeetsQuorum(evp: Voteproof, vp: Voteproof, suf: Suffrage)
    requires suf.Valid()
    requires Valid(evp) && evp.kind.Expel? && evp.result == Majority && ValidWithSuffrage(evp, suf)
    requires Valid(vp) && vp.kind.Plain? && vp.result == Majority && ValidWithSuffrage(vp, suf)
    requires |evp.expels| < Votes(vp.threshold, suf.Len())
    ensures Meet(evp, vp) && Meet(vp, evp)
  {
    ExpelMeetsPlain(evp, vp, suf);
    var a :| a in Voters(evp) * Voters(vp);
    assert a in Voters(evp) && a in Voters(vp);
  }

  lemma ExpelsMeet(vp1: Voteproof, vp2: Voteproof, suf: Suffrage)
    requires suf.Valid()
    requires Valid(vp1) && vp1.kind.Expel? && vp1.result == Majority && ValidWithSuffrage(vp1, suf)
    requires Valid(vp2) && vp2.kind.Expel? && vp2.result == Majority && ValidWithSuffrage(vp2, suf)
    requires ToSet(ExpelNodes(vp1.expels)) + ToSet(ExpelNodes(vp2.expels)) != suf.Members()
    ensures Meet(vp1, vp2)
  {
    ExpelMeetsExpel(vp1, vp2, suf);
    VotersOfExpel(vp1, suf);
    VotersOfExpel(vp2, suf);
    var a :| a in suf.Members() && a !in ToSet(ExpelNodes(vp1.expels)) && a !in ToSet(ExpelNodes(vp2.expels));
    assert a in Voters(vp1) && a in Voters(vp2);
  }

  lemma MeetingAgree(vp1: Voteproof, vp2: Voteproof)
    requires Meet(vp1, vp2) && NoDoubleSigning(vp1, vp2)
    ensures vp1.majority.value.hash == vp2.majority.value.hash
  {
    var a :| a in Voters(vp1) && a in Voters(vp2);
    assert a in Voters(vp1) * Voters(vp2);
    SharedVoter(vp1, vp2);
  }

  // ---------------------------------------------------------------- where they do not

  function Fact(at: StagePoint, hash: string): BallotFact {
    BallotFact(hash, at, "", false)
  }

  lemma UsableAreMembers(suf: Suffrage, at: StagePoint, t: Percent, expels: seq<ExpelOperation>)
    requires suf.Valid() && Usable(suf, at, t, expels)
    ensures ToSet(ExpelNodes(expels)) < suf.Members()
    ensures |ToSet(ExpelNodes(expels))| == |expels|
  {
    forall a | a in ExpelNodes(expels)
      ensures a in suf.Members()
    {
      var i :| 0 <= i < |expels| && ExpelNodes(expels)[i] == a;
      assert expels[i] in expels;
    }
    AllOrFewer(suf, ExpelNodes(expels));
  }

  /** Exactly those who are not in `absent` signed `fact`, and nobody anything else. */
  ghost predicate SignedByRest(vp: Voteproof, suf: Suffrage, fact: BallotFact, absent: set<string>) {
    && vp.majority == Some(fact)
    && Voters(vp) == suf.Members() - absent
    && forall sf :: sf in vp.signFacts ==> sf.node in suf.Members() - absent
  }

  /** All who are not expelled can make a majority for any fact. */
  lemma RestAgrees(suf: Suffrage, t: Percent, fact: BallotFact, expels: seq<ExpelOperation>) returns (vp: Voteproof)
    requires suf.Valid() && Usable(suf, fact.point, t, expels)
    ensures MajorityWith(vp, suf, fact.point, t, expels)
    ensures SignedByRest(vp, suf, fact, ToSet(ExpelNodes(expels)))
  {
    vp := Unanimous(suf, t, fact, expels);
    UsableAreMembers(suf, fact.point, t, expels);
    VoteWithoutIsValid(suf, t, fact, expels, ToSet(ExpelNodes(expels)));
    UnanimousIsAccepted(suf, t, fact, expels);
    SignersAreMembers(vp, suf);
  }

  lemma SignersAreMembers(vp: Voteproof, suf: Suffrage)
    requires suf.Valid() && SignedByMembers(vp, suf)
    ensures forall sf :: sf in vp.signFacts ==> sf.node in suf.Members()
  {
    forall sf | sf in vp.signFacts
      ensures sf.node in suf.Members()
    {
      assert suf.ExistsPublickey(sf.node, sf.signer);
    }
  }

  /** A quorum can make a majority for any fact without expels. */
  lemma QuorumAgrees(suf: Suffrage, t: Percent, fact: BallotFact, absent: set<string>) returns (vp: Voteproof)
    requires suf.Valid() && Thresholds.IsValid(t) && fact.point.stage.CanVote() && fact.point.point.IsValid()
    requires absent < suf.Members() && suf.Len() - |absent| >= Votes(t, suf.Len())
    ensures MajorityWith(vp, suf, fact.point, t, []) && SignedByRest(vp, suf, fact, absent)
  {
    vp := VoteWithout(suf, t, fact, [], absent);
    VoteWithoutIsValid(suf, t, fact, [], absent);
    MembersCard(suf);
    assert |suf.Members() - absent| == |suf.Members()| - |absent|;
    PlainAcceptedIff(vp, suf);
    SignersAreMembers(vp, suf);
  }

  /** Two majorities for different facts, with nobody who signed both. */
  ghost predicate Disagree(vp1: Voteproof, vp2: Voteproof) {
    && vp1.majority.Some? && vp2.majority.Some?
    && vp1.majority.value.hash != vp2.majority.value.hash
    && NoDoubleSigning(vp1, vp2)
    && Voters(vp1) !! Voters(vp2)
  }

  lemma RestsDisagree(vp1: Voteproof, vp2: Voteproof, suf: Suffrage, fact1: BallotFact, fact2: BallotFact,
                      absent1: set<string>, absent2: set<string>)
    requires SignedByRest(vp1, suf, fact1, absent1) && SignedByRest(vp2, suf, fact2, absent2)
    requires suf.Members() <= absent1 + absent2 && fact1.hash != fact2.hash
    ensures Disagree(vp1, vp2) && Disagree(vp2, vp1)
  {
  }

  lemma ExpelsDisagree(suf: Suffrage, at: StagePoint,
                       t1: Percent, e1: seq<ExpelOperation>, out1: set<string>,
                       t2: Percent, e2: seq<ExpelOperation>, out2: set<string>)
    returns (vp1: Voteproof, vp2: Voteproof)
    requires suf.Valid() && Usable(suf, at, t1, e1) && Usable(suf, at, t2, e2)
    requires out1 == ToSet(ExpelNodes(e1)) && out2 == ToSet(ExpelNodes(e2))
    requires out1 + out2 == suf.Members()
    ensures MajorityWith(vp1, suf, at, t1, e1) && SignedByRest(vp1, suf, Fact(at, "x"), out1)
    ensures MajorityWith(vp2, suf, at, t2, e2) && SignedByRest(vp2, suf, Fact(at, "y"), out2)
    ensures Disagree(vp1, vp2)
  {
    vp1 := RestAgrees(suf, t1, Fact(at, "x"), e1);
    vp2 := RestAgrees(suf, t2, Fact(at, "y"), e2);
    RestsDisagree(vp1, vp2, suf, Fact(at, "x"), Fact(at, "y"), out1, out2);
  }

  lemma ExpelledDisagree(suf: Suffrage, at: StagePoint, t1: Percent, e1: seq<ExpelOperation>, t2: Percent)
    returns (vp1: Voteproof, vp2: Voteproof)
    requires suf.Valid() && Usable(suf, at, t1, e1) && Thresholds.IsValid(t2)
    requires |e1| >= Votes(t2, suf.Len())
    ensures MajorityWith(vp1, suf, at, t1, e1) && SignedByRest(vp1, suf, Fact(at, "x"), ToSet(ExpelNodes(e1)))
    ensures MajorityWith(vp2, suf, at, t2, []) && Voters(vp2) == ToSet(ExpelNodes(e1))
    ensures Disagree(vp1, vp2) && Disagree(vp2, vp1)
  {
    var out := ToSet(ExpelNodes(e1));
    var absent := suf.Members() - out;
    UsableAreMembers(suf, at, t1, e1);
    MembersCard(suf);
    assert |absent| == |suf.Members()| - |out|;
    VotesOfValid(t2, suf.Len());
    assert suf.Members() - absent == out;
    vp1 := RestAgrees(suf, t1, Fact(at, "x"), e1);
    vp2 := QuorumAgrees(suf, t2, Fact(at, "y"), absent);
    RestsDisagree(vp1, vp2, suf, Fact(at, "x"), Fact(at, "y"), out, absent);
  }

  // ---------------------------------------------------------------- main results

  /**
   * Without double signing, majorities agree exactly if the two sides do not expel everyone
   * between them, and a side without expels has a quorum that the other does not expel. Without
   * expels they always agree.
   */
  lemma MajoritiesAgreeIff(suf: Suffrage, at: StagePoint,
                           t1: Percent, e1: seq<ExpelOperation>, t2: Percent, e2: seq<ExpelOperation>)
    requires suf.Valid() && Usable(suf, at, t1, e1) && Usable(suf, at, t2, e2)
    ensures Agreement(suf, at, t1, e1, t2, e2) <==> !Collide(suf, t1, e1, t2, e2)
  {
    if Collide(suf, t1, e1, t2, e2) {
      Differ(suf, at, t1, e1, t2, e2);
    } else {
      Agree(suf, at, t1, e1, t2, e2);
    }
  }

  lemma Agree(suf: Suffrage, at: StagePoint,
              t1: Percent, e1: seq<ExpelOperation>, t2: Percent, e2: seq<ExpelOperation>)
    requires suf.Valid() && !Collide(suf, t1, e1, t2, e2)
    ensures Agreement(suf, at, t1, e1, t2, e2)
  {
    forall vp1, vp2 | MajorityWith(vp1, suf, at, t1, e1) && MajorityWith(vp2, suf, at, t2, e2)
                      && NoDoubleSigning(vp1, vp2)
      ensures vp1.majority.value.hash == vp2.majority.value.hash
    {
      AgreeOnFact(vp1, vp2, suf);
    }
  }

  lemma AgreeOnFact(vp1: Voteproof, vp2: Voteproof, suf: Suffrage)
    requires suf.Valid()
    requires Valid(vp1) && !vp1.kind.Stuck? && vp1.result == Majority && ValidWithSuffrage(vp1, suf)
    requires Valid(vp2) && !vp2.kind.Stuck? && vp2.result == Majority && ValidWithSuffrage(vp2, suf)
    requires !Collide(suf, vp1.threshold, vp1.Expels(), vp2.threshold, vp2.Expels())
    requires NoDoubleSigning(vp1, vp2)
    ensures vp1.majority.value.hash == vp2.majority.value.hash
  {
    if vp1.kind.Plain? && vp2.kind.Plain? {
      PlainMeetsPlain(vp1, vp2, suf);
    } else if vp2.kind.Plain? {
      ExpelMeetsQuorum(vp1, vp2, suf);
    } else if vp1.kind.Plain? {
      ExpelMeetsQuorum(vp2, vp1, suf);
    } else {
      ExpelsMeet(vp1, vp2, suf);
    }
    MeetingAgree(vp1, vp2);
  }

  lemma Differ(suf: Suffrage, at: StagePoint,
               t1: Percent, e1: seq<ExpelOperation>, t2: Percent, e2: seq<ExpelOperation>)
    requires suf.Valid() && Usable(suf, at, t1, e1) && Usable(suf, at, t2, e2)
    requires Collide(suf, t1, e1, t2, e2)
    ensures !Agreement(suf, at, t1, e1, t2, e2)
  {
    var vp1, vp2;
    if e2 == [] {
      vp1, vp2 := ExpelledDisagree(suf, at, t1, e1, t2);
    } else if e1 == [] {
      vp2, vp1 := ExpelledDisagree(suf, at, t2, e2, t1);
    } else {
      vp1, vp2 := ExpelsDisagree(suf, at, t1, e1, ToSet(ExpelNodes(e1)), t2, e2, ToSet(ExpelNodes(e2)));
    }
    assert MajorityWith(vp1, suf, at, t1, e1) && MajorityWith(vp2, suf, at, t2, e2);
    assert NoDoubleSigning(vp1, vp2);
  }

  /**
   * From the safe threshold on, majorities that each expel no more than the faulty nodes share
   * more voters than may be faulty.
   */
  lemma FewExpelsAreSafe(vp1: Voteproof, vp2: Voteproof, suf: Suffrage)
    requires suf.Valid()
    requires Valid(vp1) && !vp1.kind.Stuck? && vp1.result == Majority && ValidWithSuffrage(vp1, suf)
    requires Valid(vp2) && !vp2.kind.Stuck? && vp2.result == Majority && ValidWithSuffrage(vp2, suf)
    requires vp1.threshold >= SAFE_THRESHOLD && |vp1.Expels()| <= NumberOfFaultyNodes(suf.Len(), vp1.threshold)
    requires vp2.threshold >= SAFE_THRESHOLD && |vp2.Expels()| <= NumberOfFaultyNodes(suf.Len(), vp2.threshold)
    ensures var both := Voters(vp1) * Voters(vp2);
      && |both| > NumberOfFaultyNodes(suf.Len(), vp1.threshold)
      && |both| > NumberOfFaultyNodes(suf.Len(), vp2.threshold)
    ensures NoDoubleSigning(vp1, vp2) ==> vp1.majority.value.hash == vp2.majority.value.hash
  {
    var n := suf.Len();
    VotersOfMajority(vp1, suf);
    VotersOfMajority(vp2, suf);
    MembersCard(suf);
    Overlap(Voters(vp1), Voters(vp2), suf.Members());
    FaultyIsRest(vp1.threshold, n);
    FaultyIsRest(vp2.threshold, n);
    SafeQuorumsBeatFaulty(vp1.threshold, vp2.threshold, n);
    VotesOfValid(vp1.threshold, n);
    if NoDoubleSigning(vp1, vp2) {
      assert Voters(vp1) * Voters(vp2) != {};
      SharedVoter(vp1, vp2);
    }
  }

  /**
   * What voting finds can be part of a voteproof exactly if it is on distinct nodes, somebody is
   * left, the threshold does not ask for more signs, and members signed with their own keys.
   */
  lemma FoundIsUsableIff(suf: Suffrage, at: StagePoint, t: Percent, found: seq<ExpelOperation>, ops: seq<ExpelOperation>)
    requires suf.Valid() && Thresholds.IsValid(t) && at.stage.CanVote() && at.point.IsValid()
    requires found != [] && Expellable(found, suf) && Filtered(found, ops)
    requires forall op :: op in found ==> Distinct(Signers(op.signs)) && Eligible(op, at.point.h, suf)
    ensures Usable(suf, at, t, ops) <==>
              && Distinct(ExpelNodes(ops)) && ToSet(ExpelNodes(ops)) != suf.Members()
              && SignsSuffice(suf, t, ops) && SignedWithKeys(suf, ops)
  {
    FilteredNodes(found, ops);
    AreMembers(found, suf);
    FoundKnownIff(suf, at.point.h, found, ops);
    if Distinct(ExpelNodes(ops)) {
      AllOrFewer(suf, ExpelNodes(ops));
      AsksNoMoreIff(t, suf.Len(), |ops|);
      VotesOfValid(t, suf.Len());
    }
  }

  // ---------------------------------------------------------------- two inputs

  lemma ExpelAllUsable(suf: Suffrage, at: StagePoint, t: Percent, nodes: seq<string>, signers: seq<string>)
    requires suf.Valid() && Thresholds.IsValid(t) && at.stage.CanVote() && at.point.IsValid()
    requires Distinct(nodes) && 0 < |nodes| < suf.Len() && signers != []
    requires forall a :: a in nodes || a in signers ==> suf.ExistsPublickey(a, "")
    requires forall a :: a in signers ==> a !in nodes
    requires |signers| >= ExpelThreshold(t, suf.Len(), |nodes|)
    ensures Usable(suf, at, t, ExpelAll(nodes, signers, at.point.h))
  {
    var e := ExpelAll(nodes, signers, at.point.h);
    forall op | op in e
      ensures op.NodeSigns() == op.signs && IsValidExpelWithSuffrage(at.point.h, op, suf) == None
    {
      KnownExpel(suf, op, signers);
    }
  }

  lemma KnownExpel(suf: Suffrage, op: ExpelOperation, signers: seq<string>)
    requires suf.Exists(op.node) && op.node !in signers && op.signs == SignedBy(signers)
    requires forall a :: a in signers ==> suf.ExistsPublickey(a, "")
    ensures op.NodeSigns() == op.signs && IsValidExpelWithSuffrage(op.end, op, suf) == None
  {
    SignsOutsideNone(op.signs, {op.node});
    assert forall s :: s in op.signs ==> s.node in signers && s.signer == "";
  }

  /**
   * Two of four nodes expel the other two, and the other way round: both halves have a validated
   * majority at the same point, for different facts, and nobody signs twice.
   */
  lemma HalvesDisagree(suf: Suffrage, at: StagePoint)
    returns (e1: seq<ExpelOperation>, e2: seq<ExpelOperation>, vp1: Voteproof, vp2: Voteproof)
    requires FourKeyed(suf) && at.stage.CanVote() && at.point.IsValid()
    ensures |e1| == |e2| == 2
    ensures MajorityWith(vp1, suf, at, DEFAULT_THRESHOLD, e1) && SignedByRest(vp1, suf, Fact(at, "x"), {"c", "d"})
    ensures MajorityWith(vp2, suf, at, DEFAULT_THRESHOLD, e2) && SignedByRest(vp2, suf, Fact(at, "y"), {"a", "b"})
    ensures Disagree(vp1, vp2)
  {
    e1, e2 := HalvesUsable(suf, at);
    HalvesOfFour(suf);
    vp1, vp2 := ExpelsDisagree(suf, at, DEFAULT_THRESHOLD, e1, {"c", "d"}, DEFAULT_THRESHOLD, e2, {"a", "b"});
  }

  /** A suffrage of four with the keys that the operations of the examples are signed with. */
  ghost predicate FourKeyed(suf: Suffrage) {
    suf.Valid() && OfFour(suf) && forall a :: a in suf.m ==> suf.m[a].publickey == ""
  }

  lemma HalvesUsable(suf: Suffrage, at: StagePoint) returns (e1: seq<ExpelOperation>, e2: seq<ExpelOperation>)
    requires FourKeyed(suf) && at.stage.CanVote() && at.point.IsValid()
    ensures Usable(suf, at, DEFAULT_THRESHOLD, e1) && ExpelNodes(e1) == ["c", "d"]
    ensures Usable(suf, at, DEFAULT_THRESHOLD, e2) && ExpelNodes(e2) == ["a", "b"]
  {
    e1, e2 := ExpelAll(["c", "d"], ["a", "b"], at.point.h), ExpelAll(["a", "b"], ["c", "d"], at.point.h);
    PairUsable(suf, at, ["c", "d"], ["a", "b"]);
    PairUsable(suf, at, ["a", "b"], ["c", "d"]);
  }

  lemma HalvesOfFour(suf: Suffrage)
    requires suf.Valid() && OfFour(suf)
    ensures ToSet(["a", "b"]) == {"a", "b"} && suf.Members() - {"a", "b"} == {"c", "d"}
    ensures ToSet(["c", "d"]) == {"c", "d"} && suf.Members() - {"c", "d"} == {"a", "b"}
    ensures {"a", "b"} + {"c", "d"} == suf.Members()
  {
    MembersOfFour(suf);
  }

  lemma PairUsable(suf: Suffrage, at: StagePoint, nodes: seq<string>, signers: seq<string>)
    requires suf.Valid() && suf.Len() == 4 && at.stage.CanVote() && at.point.IsValid()
    requires |nodes| == |signers| == 2 && Distinct(nodes)
    requires forall a :: a in nodes || a in signers ==> suf.ExistsPublickey(a, "")
    requires forall a :: a in signers ==> a !in nodes
    ensures Usable(suf, at, DEFAULT_THRESHOLD, ExpelAll(nodes, signers, at.point.h))
  {
    OfFourThresholds();
    ExpelAllUsable(suf, at, DEFAULT_THRESHOLD, nodes, signers);
  }

  /** One of four nodes expels the others and has a validated majority alone, against the majority of the others. */
  lemma OneDisagrees(suf: Suffrage, at: StagePoint)
    returns (e: seq<ExpelOperation>, vp1: Voteproof, vp2: Voteproof)
    requires FourKeyed(suf) && at.stage.CanVote() && at.point.IsValid()
    ensures |e| == 3
    ensures MajorityWith(vp1, suf, at, DEFAULT_THRESHOLD, e) && Voters(vp1) == {"a"}
    ensures MajorityWith(vp2, suf, at, DEFAULT_THRESHOLD, []) && Voters(vp2) == {"b", "c", "d"}
    ensures Disagree(vp1, vp2)
  {
    e := RestUsable(suf, at);
    RestOfFour(suf);
    OfFourThresholds();
    vp1, vp2 := ExpelledDisagree(suf, at, DEFAULT_THRESHOLD, e, DEFAULT_THRESHOLD);
  }

  lemma RestUsable(suf: Suffrage, at: StagePoint) returns (e: seq<ExpelOperation>)
    requires FourKeyed(suf) && at.stage.CanVote() && at.point.IsValid()
    ensures Usable(suf, at, DEFAULT_THRESHOLD, e) && ExpelNodes(e) == ["b", "c", "d"]
  {
    e := ExpelAll(["b", "c", "d"], ["a"], at.point.h);
    OfFourThresholds();
    ExpelAllUsable(suf, at, DEFAULT_THRESHOLD, ["b", "c", "d"], ["a"]);
  }

  lemma RestOfFour(suf: Suffrage)
    requires suf.Valid() && OfFour(suf)
    ensures ToSet(["b", "c", "d"]) == {"b", "c", "d"} && suf.Members() - {"b", "c", "d"} == {"a"}
  {
    MembersOfFour(suf);
  }

  lemma MembersOfFour(suf: Suffrage)
    requires suf.Valid() && OfFour(suf)
    ensures suf.Members() == {"a", "b", "c", "d"}
  {
  }

  lemma OfFourThresholds()
    ensures Votes(DEFAULT_THRESHOLD, 4) == 3
    ensures ExpelThreshold(DEFAULT_THRESHOLD, 4, 2) == 2 && ExpelThreshold(DEFAULT_THRESHOLD, 4, 3) == 1
  {
    VotesRoundUp(DEFAULT_THRESHOLD, 4);
  }
}
