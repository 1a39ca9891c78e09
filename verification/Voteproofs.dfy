/**
 * Voteproofs and their validity, by themselves and against a suffrage
 * (base/voteproof_isvalid.go, isaac/voteproof.go, isaac/voteproof_isvalid.go).
 * Signatures are taken as verified.
 */
module Voteproofs {
  import opened Wrappers
  import opened Sequences
  import opened Points
  import opened Thresholds
  import opened Suffrages
  import opened VoteCounting

  /** `block` is the previous block of an INIT fact and the new block of an ACCEPT fact. */
  datatype BallotFact = BallotFact(hash: string, point: StagePoint, block: string, isSuffrageConfirm: bool)

  datatype BallotSignFact = BallotSignFact(node: string, signer: string, fact: BallotFact)

  datatype Kind = Plain | Expel | Stuck

  datatype Voteproof = Voteproof(
    id: string,
    kind: Kind,
    point: StagePoint,
    result: VoteResult,
    threshold: Percent,
    majority: Option<BallotFact>,
    signFacts: seq<BallotSignFact>,
    expels: seq<ExpelOperation>)
  {
    /** Only expel and stuck voteproofs carry expels. */
    function Expels(): seq<ExpelOperation> {
      if kind.Plain? then [] else expels
    }
  }

  function SignNodes(sfs: seq<BallotSignFact>): (r: seq<string>)
    ensures |r| == |sfs|
  {
    seq(|sfs|, i requires 0 <= i < |sfs| => sfs[i].node)
  }

  function FactHashes(sfs: seq<BallotSignFact>): (r: seq<string>)
    ensures |r| == |sfs|
  {
    seq(|sfs|, i requires 0 <= i < |sfs| => sfs[i].fact.hash)
  }

  // ---------------------------------------------------------------- validity by itself

  predicate ValidVoteResult(vp: Voteproof) {
    if vp.result == Draw then vp.majority == None
    else vp.majority.Some? && vp.majority.value.point == vp.point
  }

  predicate ValidSignFacts(vp: Voteproof) {
    && (forall sf :: sf in vp.signFacts ==> sf.fact.point == vp.point)
    && (vp.majority.Some? ==> exists sf :: sf in vp.signFacts && sf.fact.hash == vp.majority.value.hash)
  }

  predicate ValidExpels(vp: Voteproof) {
    && vp.expels != []
    && (forall op :: op in vp.expels ==> op.NodeSigns() != [])
    && Distinct(ExpelNodes(vp.expels))
    && forall sf :: sf in vp.signFacts ==> sf.node !in ExpelNodes(vp.expels)
  }

  predicate ValidBase(vp: Voteproof) {
    && vp.id != ""
    && vp.point.stage.CanVote()
    && vp.result != NotYet
    && vp.signFacts != []
    && Distinct(SignNodes(vp.signFacts))
    && vp.point.point.IsValid()
    && Thresholds.IsValid(vp.threshold)
    && ValidVoteResult(vp)
    && ValidSignFacts(vp)
  }

  predicate Valid(vp: Voteproof) {
    && ValidBase(vp)
    && (!vp.kind.Plain? ==> ValidExpels(vp))
    && (vp.kind.Stuck? ==> vp.threshold == MAX_THRESHOLD)
  }

  /**
   * What a valid voteproof is: finished, for a point that can be voted on, with at least one sign
   * fact, all for that point and each by another node. A majority is for that point too, and
   * somebody signed it; a draw has none. With expels, each is of another node that signed nothing,
   * and somebody else signed it; stuck voteproofs have the maximal threshold.
   */
  lemma ValidIff(vp: Voteproof)
    ensures Valid(vp) <==>
              && vp.id != "" && |vp.signFacts| > 0
              && (vp.point.stage == INIT || vp.point.stage == ACCEPT)
              && (vp.point.point.h > 0 || (vp.point.point.h == 0 && vp.point.point.r == 0))
              && MIN_THRESHOLD <= vp.threshold <= MAX_THRESHOLD
              && (forall i :: 0 <= i < |vp.signFacts| ==> vp.signFacts[i].fact.point == vp.point)
              && (forall i, j :: 0 <= i < |vp.signFacts| && 0 <= j < |vp.signFacts| ==>
                    vp.signFacts[i].node == vp.signFacts[j].node ==> i == j)
              && (match vp.result
                  case NotYet => false
                  case Draw => vp.majority == None
                  case Majority =>
                    && vp.majority.Some? && vp.majority.value.point == vp.point
                    && exists i :: 0 <= i < |vp.signFacts| && vp.signFacts[i].fact.hash == vp.majority.value.hash)
              && (vp.kind.Plain? || ExpelsMatter(vp))
              && (vp.kind.Stuck? ==> vp.threshold == MAX_THRESHOLD)
  {
    var sfs := vp.signFacts;
    assert forall i :: 0 <= i < |sfs| ==> SignNodes(sfs)[i] == sfs[i].node && sfs[i] in sfs;
    if !vp.kind.Plain? {
      ExpelsMatterIff(vp);
    }
  }

  ghost predicate ExpelsMatter(vp: Voteproof) {
    && |vp.expels| > 0
    && (forall i, j :: 0 <= i < |vp.expels| && 0 <= j < |vp.expels| ==> vp.expels[i].node == vp.expels[j].node ==> i == j)
    && forall i :: 0 <= i < |vp.expels| ==>
         && (exists s :: s in vp.expels[i].signs && s.node != vp.expels[i].node)
         && forall sf :: sf in vp.signFacts ==> sf.node != vp.expels[i].node
  }

  lemma NodeSignsIff(op: ExpelOperation)
    ensures op.NodeSigns() != [] <==> exists s :: s in op.signs && s.node != op.node
  {
    if op.NodeSigns() != [] {
      assert op.NodeSigns()[0] in op.NodeSigns();
    }
    if s :| s in op.signs && s.node != op.node {
      assert s in op.NodeSigns();
    }
  }

  lemma NobodyExpelledIff(ops: seq<ExpelOperation>, node: string)
    ensures node !in ExpelNodes(ops) <==> forall i :: 0 <= i < |ops| ==> node != ops[i].node
  {
    assert forall i :: 0 <= i < |ops| ==> ExpelNodes(ops)[i] == ops[i].node;
  }

  lemma DistinctExpelsIff(ops: seq<ExpelOperation>)
    ensures Distinct(ExpelNodes(ops)) <==>
              forall i, j :: 0 <= i < |ops| && 0 <= j < |ops| ==> ops[i].node == ops[j].node ==> i == j
  {
    assert forall i :: 0 <= i < |ops| ==> ExpelNodes(ops)[i] == ops[i].node;
  }

  lemma ExpelsMatterIff(vp: Voteproof)
    ensures ValidExpels(vp) <==> ExpelsMatter(vp)
  {
    var ops := vp.expels;
    DistinctExpelsIff(ops);
    forall op: ExpelOperation
      ensures op.NodeSigns() != [] <==> exists s :: s in op.signs && s.node != op.node
    {
      NodeSignsIff(op);
    }
    forall node: string
      ensures node !in ExpelNodes(ops) <==> forall i :: 0 <= i < |ops| ==> node != ops[i].node
    {
      NobodyExpelledIff(ops, node);
    }
    if ExpelsMatter(vp) {
      forall op | op in ops
        ensures op.NodeSigns() != []
      {
        var i :| 0 <= i < |ops| && ops[i] == op;
      }
    } else if ValidExpels(vp) {
      forall i | 0 <= i < |ops|
        ensures exists s :: s in ops[i].signs && s.node != ops[i].node
      {
        assert ops[i] in ops;
      }
    }
  }

  method IsValidSignFacts(vp: Voteproof) returns (ok: bool)
    ensures ok == ValidSignFacts(vp)
  {
    var vs := vp.signFacts;
    var bs: seq<bool> := [];
    for i := 0 to |vs|
      invariant |bs| == i
      invariant forall j :: 0 <= j < i ==> bs[j] == (vs[j].fact.point == vp.point)
    {
      bs := bs + [vs[i].fact.point == vp.point];
    }
    for i := 0 to |bs|
      invariant forall j :: 0 <= j < i ==> bs[j]
    {
      if !bs[i] {
        assert vs[i] in vp.signFacts;
        return false;
      }
    }
    if vp.majority.Some? {
      var foundMajority := false;
      for i := 0 to |vs|
        invariant !foundMajority && forall j :: 0 <= j < i ==> vs[j].fact.hash != vp.majority.value.hash
      {
        if vs[i].fact.hash == vp.majority.value.hash {
          assert vs[i] in vp.signFacts;
          foundMajority := true;
          break;
        }
      }
      return foundMajority;
    }
    return true;
  }

  method IsValidVoteproof(vp: Voteproof) returns (ok: bool)
    ensures ok == ValidBase(vp)
  {
    if vp.id == "" || !vp.point.stage.CanVote() || vp.result == NotYet || |vp.signFacts| < 1 {
      return false;
    }
    var duplicated := IsDuplicatedSlice(SignNodes(vp.signFacts));
    if duplicated || !vp.point.point.IsValid() || !Thresholds.IsValid(vp.threshold) || !ValidVoteResult(vp) {
      return false;
    }
    ok := IsValidSignFacts(vp);
  }

  // ---------------------------------------------------------------- validity against a suffrage

  /** Everybody who signed is a member, with the member's key. */
  predicate SignedByMembers(vp: Voteproof, suf: Suffrage) {
    forall sf :: sf in vp.signFacts ==> suf.ExistsPublickey(sf.node, sf.signer)
  }

  /** Every expel is of a member, not expired, and signed by members. */
  predicate ExpelsKnown(vp: Voteproof, suf: Suffrage) {
    forall op :: op in vp.Expels() ==> IsValidExpelWithSuffrage(vp.point.point.h, op, suf) == None
  }

  /** The signers are members, and counting their votes again gives the result of the voteproof. */
  ghost predicate ValidWithMembers(vp: Voteproof, suf: Suffrage, th: Percent) {
    && SignedByMembers(vp, suf)
    && (!vp.kind.Stuck? ==>
          var (result, key) := Tally(suf.Len(), Votes(th, suf.Len()), multiset(FactHashes(vp.signFacts)));
          && result == vp.result
          && (result == Draw ==> vp.majority == None)
          && (result == Majority ==> vp.majority.Some? && vp.majority.value.hash == key))
  }

  /** With expels everyone who is left has to vote. */
  ghost predicate ValidWithSuffrage(vp: Voteproof, suf: Suffrage) {
    var expels := vp.Expels();
    var rsuf := SuffrageWithExpels(suf, vp.threshold, expels);
    && ExpelsKnown(vp, suf)
    && rsuf.Ok?
    && (vp.kind.Stuck? ==> suf.Len() == |vp.signFacts| + |expels|)
    && ValidWithMembers(vp, rsuf.value, if expels == [] then vp.threshold else MAX_THRESHOLD)
  }

  method IsValidVoteproofWithMembers(vp: Voteproof, suf: Suffrage, th: Percent) returns (ok: bool)
    ensures ok == ValidWithMembers(vp, suf, th)
  {
    var sfs := vp.signFacts;
    for i := 0 to |sfs|
      invariant forall j :: 0 <= j < i ==> suf.ExistsPublickey(sfs[j].node, sfs[j].signer)
    {
      if !suf.Exists(sfs[i].node) || !suf.ExistsPublickey(sfs[i].node, sfs[i].signer) {
        assert sfs[i] in vp.signFacts;
        return false;
      }
    }
    if vp.kind.Stuck? {
      return true;
    }
    var result, majoritykey := FindVoteResult(suf.Len(), Votes(th, suf.Len()), FactHashes(sfs));
    if result != vp.result {
      return false;
    }
    match result
    case Draw => return vp.majority == None;
    case Majority => return vp.majority.Some? && vp.majority.value.hash == majoritykey;
    case NotYet => return true;
  }

  method IsValidVoteproofWithSuffrage(vp: Voteproof, suf: Suffrage) returns (ok: bool)
    ensures ok == ValidWithSuffrage(vp, suf)
  {
    var expels := vp.Expels();
    var th: Percent := vp.threshold;
    var rsuf := suf;
    if |expels| > 0 {
      for i := 0 to |expels|
        invariant forall j :: 0 <= j < i ==> IsValidExpelWithSuffrage(vp.point.point.h, expels[j], suf) == None
      {
        if IsValidExpelWithSuffrage(vp.point.point.h, expels[i], suf).Some? {
          assert expels[i] in expels;
          return false;
        }
      }
      var r := NewSuffrageWithExpels(suf, vp.threshold, expels);
      if r.Err? {
        return false;
      }
      rsuf, th := r.value, MAX_THRESHOLD;
    }
    if vp.kind.Stuck? && suf.Len() != |vp.signFacts| + |expels| {
      return false;
    }
    ok := IsValidVoteproofWithMembers(vp, rsuf, th);
  }
}
