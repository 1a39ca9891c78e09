/** Voting for expels, and finding the operations to expel with (isaac/suffrage_voting.go). */
module ExpelVoting {
  import opened Wrappers
  import opened StringOrder
  import opened Sequences
  import opened Thresholds
  import opened Suffrages
  import opened Voteproofs
  import opened ExpelPools
  import opened ExpelSearch

  // ---------------------------------------------------------------- dropping the signs of expelled nodes

  function FilterSigns(op: ExpelOperation, expelnodes: seq<string>): Result<ExpelOperation, Error> {
    var signs := op.NodeSigns();
    var filtered := SignsOutside(signs, ToSet(expelnodes));
    if |signs| == |filtered| then Ok(op)
    else if !Distinct(Signers(filtered)) then Err(DuplicatedSigns)
    else Ok(op.(signs := filtered))
  }

  lemma {:induction false} SignsOutsideTwice(signs: seq<NodeSign>, a: set<string>, b: set<string>)
    requires a <= b
    ensures SignsOutside(SignsOutside(signs, b), a) == SignsOutside(signs, b)
  {
    if signs != [] {
      SignsOutsideTwice(signs[1..], a, b);
    }
  }

  lemma {:induction false} SignsOutsideAll(signs: seq<NodeSign>, out: set<string>)
    ensures |SignsOutside(signs, out)| == |signs| ==> SignsOutside(signs, out) == signs
  {
    if signs != [] {
      var rest := signs[1..];
      assert signs == [signs[0]] + rest;
      SignsOutsideAll(rest, out);
      if signs[0].node in out {
        assert SignsOutside(signs, out) == SignsOutside(rest, out);
      } else {
        assert SignsOutside(signs, out) == [signs[0]] + SignsOutside(rest, out);
      }
    }
  }

  lemma {:induction false} SignsOutsideDistinct(signs: seq<NodeSign>, out: set<string>)
    requires Distinct(Signers(signs))
    ensures Distinct(Signers(SignsOutside(signs, out)))
  {
    if signs != [] {
      var rest, kept := signs[1..], SignsOutside(signs[1..], out);
      assert Signers(rest) == Signers(signs)[1..];
      SignsOutsideDistinct(rest, out);
      if signs[0].node !in out {
        assert Signers([signs[0]] + kept) == [signs[0].node] + Signers(kept);
        forall i | 0 <= i < |kept|
          ensures kept[i].node != signs[0].node
        {
          assert kept[i] in rest;
          var j :| 0 <= j < |rest| && rest[j] == kept[i];
          assert Signers(signs)[0] != Signers(signs)[j + 1];
        }
      }
    }
  }

  /** After filtering, exactly the signs of nodes that are not expelled count. */
  lemma FilteredSigns(op: ExpelOperation, expelnodes: seq<string>)
    requires Distinct(Signers(op.signs)) && op.node in expelnodes
    ensures var r := FilterSigns(op, expelnodes);
      && r.Ok?
      && r.value.node == op.node && r.value.end == op.end
      && r.value.NodeSigns() == SignsOutside(op.NodeSigns(), ToSet(expelnodes))
      && Distinct(Signers(r.value.NodeSigns()))
  {
    var out := ToSet(expelnodes);
    SignsOutsideDistinct(op.signs, {op.node});
    SignsOutsideDistinct(op.NodeSigns(), out);
    SignsOutsideAll(op.NodeSigns(), out);
    SignsOutsideTwice(op.NodeSigns(), {op.node}, out);
  }

  /** Filtering fails exactly if it drops signs and somebody has signed twice of those that stay. */
  lemma FilterFailsIff(op: ExpelOperation, expelnodes: seq<string>)
    ensures var kept := SignsOutside(op.NodeSigns(), ToSet(expelnodes));
      && (FilterSigns(op, expelnodes).Err? <==>
            !Distinct(Signers(kept)) && exists s :: s in op.NodeSigns() && s.node in expelnodes)
      && (FilterSigns(op, expelnodes).Ok? ==>
            FilterSigns(op, expelnodes).value == if kept == op.NodeSigns() then op else op.(signs := kept))
  {
    SignsOutsideAll(op.NodeSigns(), ToSet(expelnodes));
    var kept := SignsOutside(op.NodeSigns(), ToSet(expelnodes));
    if kept != op.NodeSigns() {
      SomeDropped(op.NodeSigns(), ToSet(expelnodes));
    }
  }

  lemma {:induction false} SomeDropped(signs: seq<NodeSign>, out: set<string>)
    requires SignsOutside(signs, out) != signs
    ensures exists s :: s in signs && s.node in out
  {
    if signs[0].node in out {
      assert signs[0] in signs;
    } else {
      SomeDropped(signs[1..], out);
      var s :| s in signs[1..] && s.node in out;
      assert s in signs;
    }
  }

  // ---------------------------------------------------------------- agreement with validation

  /** `ops` are the operations of `found` without the signs of the nodes that `found` expels. */
  ghost predicate Filtered(found: seq<ExpelOperation>, ops: seq<ExpelOperation>) {
    && |ops| == |found|
    && forall i :: 0 <= i < |found| ==> FilterSigns(found[i], ExpelNodes(found)) == Ok(ops[i])
  }

  lemma FilteredNodes(found: seq<ExpelOperation>, ops: seq<ExpelOperation>)
    requires Filtered(found, ops)
    ensures ExpelNodes(ops) == ExpelNodes(found)
  {
    forall i | 0 <= i < |found|
      ensures ops[i].node == found[i].node
    {
      assert FilterSigns(found[i], ExpelNodes(found)) == Ok(ops[i]);
    }
  }

  /** Validation at a threshold accepts the operations and makes a suffrage of exactly the members not in `out`. */
  ghost predicate AcceptedWithout(suf: Suffrage, t: Percent, ops: seq<ExpelOperation>, out: set<string>) {
    var r := SuffrageWithExpels(suf, t, ops);
    && r.Ok?
    && r.value.Valid()
    && r.value.Members() == suf.Members() - out
    && r.value.Len() == suf.Len() - |out|
  }

  /** Every operation has the signs that validation asks for at this threshold. */
  predicate SignsSuffice(suf: Suffrage, t: Percent, ops: seq<ExpelOperation>) {
    forall op :: op in ops ==> |op.NodeSigns()| >= ExpelThreshold(t, suf.Len(), |ops|)
  }

  /** For `k` operations the threshold asks for no more signs than voting, which has the default one. */
  predicate AsksNoMore(t: Percent, n: nat, k: nat) {
    ExpelThreshold(t, n, k) <= ExpelThreshold(DEFAULT_THRESHOLD, n, k)
  }

  /**
   * What voting finds, validation accepts, unless nobody is left or its threshold asks for more
   * signs: with distinct signers the filtered operations make a suffrage of exactly the other
   * members. Several operations may be on one node.
   */
  lemma VotingAgreesWithValidation(suf: Suffrage, t: Percent, found: seq<ExpelOperation>, ops: seq<ExpelOperation>)
    requires suf.Valid() && found != []
    requires Expellable(found, suf) && Filtered(found, ops)
    requires forall op :: op in found ==> Distinct(Signers(op.signs))
    requires ToSet(ExpelNodes(found)) <= suf.Members()
    ensures SuffrageWithExpels(suf, t, ops).Ok? <==>
              ToSet(ExpelNodes(found)) != suf.Members() && SignsSuffice(suf, t, ops)
    ensures SuffrageWithExpels(suf, t, ops).Ok? ==> AcceptedWithout(suf, t, ops, ToSet(ExpelNodes(found)))
    ensures AsksNoMore(t, suf.Len(), |found|) ==> SignsSuffice(suf, t, ops)
  {
    FilteredNodes(found, ops);
    forall op | op in ops
      ensures |op.NodeSigns()| >= ExpelThreshold(DEFAULT_THRESHOLD, suf.Len(), |ops|)
    {
      var i :| 0 <= i < |ops| && ops[i] == op;
      EnoughAfterFilter(suf, found, ops, i);
    }
    ExpelsAccepted(suf, t, ops);
  }

  lemma EnoughAfterFilter(suf: Suffrage, found: seq<ExpelOperation>, ops: seq<ExpelOperation>, i: nat)
    requires Expellable(found, suf) && Filtered(found, ops) && i < |found|
    requires Distinct(Signers(found[i].signs))
    ensures |ops[i].NodeSigns()| >= ExpelThreshold(DEFAULT_THRESHOLD, suf.Len(), |ops|)
    ensures Distinct(Signers(ops[i].NodeSigns()))
    ensures forall s :: s in ops[i].NodeSigns() ==> suf.Exists(s.node) && s.node !in ExpelNodes(found)
  {
    assert ExpelNodes(found)[i] == found[i].node;
    assert found[i] in found;
    FilteredSigns(found[i], ExpelNodes(found));
  }

  /**
   * Beyond the nodes that the threshold can do without, every remaining member has signed every
   * single operation.
   */
  lemma AllTheRestSigned(suf: Suffrage, found: seq<ExpelOperation>, ops: seq<ExpelOperation>, i: nat)
    requires suf.Valid() && Expellable(found, suf) && Filtered(found, ops) && i < |found|
    requires forall op :: op in found ==> Distinct(Signers(op.signs))
    requires Distinct(ExpelNodes(found)) && ToSet(ExpelNodes(found)) <= suf.Members()
    requires suf.Len() - Votes(DEFAULT_THRESHOLD, suf.Len()) < |found| <= suf.Len()
    ensures ToSet(Signers(ops[i].NodeSigns())) == suf.Members() - ToSet(ExpelNodes(found))
  {
    assert found[i] in found;
    EnoughAfterFilter(suf, found, ops, i);
    VotesOfValid(DEFAULT_THRESHOLD, suf.Len());
    var signers, rest := ToSet(Signers(ops[i].NodeSigns())), suf.Members() - ToSet(ExpelNodes(found));
    DistinctCard(Signers(ops[i].NodeSigns()));
    DistinctCard(ExpelNodes(found));
    DistinctCard(Addresses(suf.ns));
    assert |rest| == suf.Len() - |found|;
    assert signers <= rest;
    assert |rest - signers| == |rest| - |signers|;
  }

  // ---------------------------------------------------------------- when what is found is accepted

  /** Every member is to be expelled, and only members signed that. */
  predicate EveryoneExpelled(ops: seq<ExpelOperation>, suf: Suffrage) {
    && ToSet(ExpelNodes(ops)) == suf.Members()
    && forall op, s :: op in ops && s in op.NodeSigns() ==> suf.Exists(s.node)
  }

  /** With as many operations as members no sign is asked for. */
  lemma EveryoneIsExpellable(ops: seq<ExpelOperation>, suf: Suffrage)
    requires suf.Valid() && Distinct(ExpelNodes(ops)) && EveryoneExpelled(ops, suf)
    ensures Expellable(ops, suf)
  {
    AllOrFewer(suf, ExpelNodes(ops));
    VotesOfValid(DEFAULT_THRESHOLD, suf.Len());
    assert ExpelThreshold(DEFAULT_THRESHOLD, suf.Len(), |ops|) == 0;
  }

  lemma {:induction false} SelectAll(ops: seq<ExpelOperation>)
    ensures Select(ops, Pow2(|ops|) - 1) == ops
  {
    if ops != [] {
      assert (Pow2(|ops|) - 1) / 2 == Pow2(|ops| - 1) - 1;
      SelectAll(ops[1..]);
    }
  }

  lemma NodeOf(ops: seq<ExpelOperation>, a: string)
    ensures a in ExpelNodes(ops) <==> exists op :: op in ops && op.node == a
  {
    if a in ExpelNodes(ops) {
      var i :| 0 <= i < |ops| && ExpelNodes(ops)[i] == a;
      assert ops[i] in ops;
    }
    if op :| op in ops && op.node == a {
      var i :| 0 <= i < |ops| && ops[i] == op;
      assert ExpelNodes(ops)[i] == a;
    }
  }

  lemma OneOperationEach(ops: seq<ExpelOperation>, a: ExpelOperation, b: ExpelOperation)
    requires Distinct(ExpelNodes(ops)) && a in ops && b in ops && a.node == b.node
    ensures a == b
  {
    var i :| 0 <= i < |ops| && ops[i] == a;
    var j :| 0 <= j < |ops| && ops[j] == b;
    assert ExpelNodes(ops)[i] == ExpelNodes(ops)[j];
  }

  /** The greatest set expels every member exactly if everyone is to be expelled. */
  lemma GreatestIsEveryoneIff(suf: Suffrage, ops: seq<ExpelOperation>, found: seq<ExpelOperation>, mask: nat)
    requires suf.Valid() && Greatest(ops, suf, mask) && multiset(found) == multiset(Select(ops, mask))
    requires Distinct(ExpelNodes(ops)) && ToSet(ExpelNodes(ops)) <= suf.Members()
    ensures ToSet(ExpelNodes(found)) == suf.Members() <==> EveryoneExpelled(ops, suf)
  {
    if EveryoneExpelled(ops, suf) {
      EveryoneIsFound(suf, ops, found, mask);
    }
    if ToSet(ExpelNodes(found)) == suf.Members() {
      FoundIsEveryone(suf, ops, found, mask);
    }
  }

  lemma EveryoneIsFound(suf: Suffrage, ops: seq<ExpelOperation>, found: seq<ExpelOperation>, mask: nat)
    requires suf.Valid() && Greatest(ops, suf, mask) && multiset(found) == multiset(Select(ops, mask))
    requires Distinct(ExpelNodes(ops)) && EveryoneExpelled(ops, suf)
    ensures ToSet(ExpelNodes(found)) == suf.Members()
  {
    EveryoneIsExpellable(ops, suf);
    AllAreSelected(suf, ops, mask);
    SameElements(found, ops);
    SameExpelNodes(found, ops);
    SameExpelNodes(ops, found);
  }

  lemma AllAreSelected(suf: Suffrage, ops: seq<ExpelOperation>, mask: nat)
    requires Greatest(ops, suf, mask) && Expellable(ops, suf)
    ensures Select(ops, mask) == ops
  {
    SelectAll(ops);
    assert !(mask < FullMask(|ops|));
  }

  lemma FoundIsEveryone(suf: Suffrage, ops: seq<ExpelOperation>, found: seq<ExpelOperation>, mask: nat)
    requires suf.Valid() && Expellable(Select(ops, mask), suf) && multiset(found) == multiset(Select(ops, mask))
    requires Distinct(ExpelNodes(ops)) && ToSet(ExpelNodes(ops)) <= suf.Members()
    requires ToSet(ExpelNodes(found)) == suf.Members()
    ensures EveryoneExpelled(ops, suf)
  {
    SameElements(found, Select(ops, mask));
    SameExpelNodes(found, ops);
    ExpellableOfPermutation(found, Select(ops, mask), suf);
    forall op | op in ops
      ensures op in found
    {
      NodeOf(ops, op.node);
      assert op.node in ToSet(ExpelNodes(found));
      NodeOf(found, op.node);
      var f :| f in found && f.node == op.node;
      OneOperationEach(ops, f, op);
    }
  }

  /**
   * For operations on different members, with distinct signers: what the search finds is accepted
   * exactly if not everyone is to be expelled, and the threshold does not ask for more signs.
   */
  lemma FoundAcceptedIff(suf: Suffrage, t: Percent, ops: seq<ExpelOperation>, mask: nat,
                         found: seq<ExpelOperation>, filtered: seq<ExpelOperation>)
    requires suf.Valid() && Greatest(ops, suf, mask) && multiset(found) == multiset(Select(ops, mask))
    requires Filtered(found, filtered)
    requires forall op :: op in ops ==> Distinct(Signers(op.signs))
    requires Distinct(ExpelNodes(ops)) && ToSet(ExpelNodes(ops)) <= suf.Members()
    ensures SuffrageWithExpels(suf, t, filtered).Ok? <==> !EveryoneExpelled(ops, suf) && SignsSuffice(suf, t, filtered)
    ensures AsksNoMore(t, suf.Len(), |filtered|) ==> SignsSuffice(suf, t, filtered)
  {
    SameElements(found, Select(ops, mask));
    SameExpelNodes(found, ops);
    SelectSome(ops, mask);
    ExpellableOfPermutation(found, Select(ops, mask), suf);
    GreatestIsEveryoneIff(suf, ops, found, mask);
    VotingAgreesWithValidation(suf, t, found, filtered);
  }

  /** The members of `signers` expel `node`. */
  function ExpelledBy(node: string, signers: seq<string>): (op: ExpelOperation)
    requires Distinct(signers)
    ensures op.node == node && |op.signs| == |signers| && Distinct(Signers(op.signs))
    ensures forall s :: s in op.signs ==> s.node in signers
  {
    ExpelOperation(node, 1, 1, SignedBy(signers))
  }

  /** Four members, each of whom the three others expel. */
  function EachOther(): (ops: seq<ExpelOperation>)
    ensures |ops| == 4 && ExpelNodes(ops) == ["a", "b", "c", "d"]
    ensures forall op :: op in ops ==> Distinct(Signers(op.signs))
    ensures forall op, s :: op in ops && s in op.signs ==> s.node in ["a", "b", "c", "d"]
  {
    [ExpelledBy("a", ["b", "c", "d"]), ExpelledBy("b", ["a", "c", "d"]),
     ExpelledBy("c", ["a", "b", "d"]), ExpelledBy("d", ["a", "b", "c"])]
  }

  /**
   * Four members expel each other: the search takes all four operations, which validation refuses,
   * although a single one of them would be accepted.
   */
  lemma EveryoneExpelledIsRefused(suf: Suffrage, t: Percent, filtered: seq<ExpelOperation>)
    requires suf.Valid() && OfFour(suf) && Filtered(EachOther(), filtered)
    ensures Greatest(EachOther(), suf, 15) && Select(EachOther(), 15) == EachOther()
    ensures SuffrageWithExpels(suf, t, filtered).Err?
    ensures Expellable([EachOther()[3]], suf) && AcceptedWithout(suf, DEFAULT_THRESHOLD, [EachOther()[3]], {"d"})
  {
    EveryoneOfFour(suf);
    EachOtherIsGreatest(suf);
    FoundAcceptedIff(suf, t, EachOther(), 15, EachOther(), filtered);
    OneAloneIsAccepted(suf, EachOther()[3]);
  }

  lemma EachOtherIsGreatest(suf: Suffrage)
    requires suf.Valid() && OfFour(suf)
    ensures Greatest(EachOther(), suf, 15) && Select(EachOther(), 15) == EachOther()
  {
    EveryoneOfFour(suf);
    EveryoneIsExpellable(EachOther(), suf);
    AllTogetherIsGreatest(EachOther(), suf);
    Pow2OfFour();
  }

  lemma Pow2OfFour()
    ensures Pow2(4) == 16
  {
    assert Pow2(2) == 4;
  }

  /** If all operations can be expelled together, the search takes them all. */
  lemma AllTogetherIsGreatest(ops: seq<ExpelOperation>, suf: Suffrage)
    requires 0 < |ops| < 64 && Expellable(ops, suf)
    ensures Greatest(ops, suf, Pow2(|ops|) - 1) && Select(ops, Pow2(|ops|) - 1) == ops
  {
    SelectAll(ops);
    assert Pow2(|ops|) >= 2;
  }

  lemma OneAloneIsAccepted(suf: Suffrage, op: ExpelOperation)
    requires suf.Valid() && OfFour(suf) && op == ExpelledBy("d", ["a", "b", "c"])
    ensures Expellable([op], suf) && AcceptedWithout(suf, DEFAULT_THRESHOLD, [op], {"d"})
  {
    ThreeExpelTheFourth(suf, op);
    AcceptedOnTheFourth(suf, [op]);
  }

  lemma EveryoneOfFour(suf: Suffrage)
    requires suf.Valid() && OfFour(suf)
    ensures Distinct(ExpelNodes(EachOther())) && EveryoneExpelled(EachOther(), suf)
  {
    assert ToSet(["a", "b", "c", "d"]) == {"a", "b", "c", "d"};
    forall op, s | op in EachOther() && s in op.NodeSigns()
      ensures suf.Exists(s.node)
    {
      assert s in op.signs;
    }
  }

  /** What expels the fourth node only, without its own signs, is accepted as it is. */
  lemma AcceptedOnTheFourth(suf: Suffrage, sel: seq<ExpelOperation>)
    requires suf.Valid() && OfFour(suf) && sel != [] && Expellable(sel, suf)
    requires forall op :: op in sel ==> op.node == "d" && Distinct(Signers(op.signs))
    requires forall op, s :: op in sel && s in op.signs ==> s.node in ["a", "b", "c"]
    ensures AcceptedWithout(suf, DEFAULT_THRESHOLD, sel, {"d"})
  {
    forall a
      ensures a in ExpelNodes(sel) <==> a == "d"
    {
      NodeOf(sel, a);
      assert sel[0] in sel;
    }
    assert ToSet(ExpelNodes(sel)) == {"d"};
    SignedByOthers(sel, suf);
    assert Filtered(sel, sel);
    VotingAgreesWithValidation(suf, DEFAULT_THRESHOLD, sel, sel);
    assert "a" in suf.Members() && "a" !in ToSet(ExpelNodes(sel));
  }

  // ---------------------------------------------------------------- finding the operations

  /** The order by the hashes of the operations. */
  function ByHash(hash: ExpelOperation -> string): Before {
    (a, b) => !Less(hash(b), hash(a))
  }

  lemma ByHashIsPreorder(hash: ExpelOperation -> string)
    ensures IsPreorder(ByHash(hash))
  {
    var le := ByHash(hash);
    forall a, b
      ensures le(a, b) || le(b, a)
    {
      if Less(hash(a), hash(b)) {
        LessAsymmetric(hash(a), hash(b));
      }
    }
    forall a, b, c | le(a, b) && le(b, c)
      ensures le(a, c)
    {
      if Less(hash(c), hash(a)) {
        LessTotal(hash(a), hash(b));
        if Less(hash(a), hash(b)) {
          LessTransitive(hash(c), hash(a), hash(b));
        }
      }
    }
  }

  /**
   * `ops` is what the search is given, and `found` what it finds with `mask`. `expires` is the
   * operation on a node which is no member that stopped the traversal of the pool.
   */
  method FindIn(pool: Pool, height: int, suf: Suffrage, hash: ExpelOperation -> string)
    returns (r: Result<seq<ExpelOperation>, Error>, expires: seq<ExpelOperation>,
             ghost ops: seq<ExpelOperation>, ghost found: seq<ExpelOperation>, ghost mask: nat)
    ensures expires == if Stranger(pool, height, suf).Some? then [Stranger(pool, height, suf).value] else []
    ensures multiset(ops) == multiset(Collected(pool, height, suf)) && SortedBy(ByHash(hash), ops)
    ensures r == Ok([]) <==> found == []
    ensures found != [] ==> Greatest(ops, suf, mask) && multiset(found) == multiset(Select(ops, mask))
    ensures |ops| < 64 ==> (found == [] <==> NothingExpellableAmong(multiset(Collected(pool, height, suf)), suf))
    ensures r.Ok? ==> Filtered(found, r.value)
    ensures r.Err? ==> exists op :: op in found && FilterSigns(op, ExpelNodes(found)).Err?
    ensures suf.Valid() && found != [] && (forall op :: op in pool ==> Distinct(Signers(op.signs))) ==>
              r.Ok? && FoundAgreeAlways(pool, height, suf, found, r.value)
  {
    var collected;
    found, mask := [], 0;
    collected, expires := Traverse(pool, height, suf);
    ops := collected;
    if |collected| < 1 {
      NothingToExpel(suf);
      return Ok([]), expires, ops, [], 0;
    }
    ByHashIsPreorder(hash);
    collected := Sort(ByHash(hash), collected);
    ops := collected;
    NothingExpellableIff(ops, suf);
    var expelnodes, chosen;
    expelnodes, chosen, mask := FindExpelCombinations(collected, suf);
    found := chosen;
    if |chosen| < 1 {
      return Ok([]), expires, ops, found, mask;
    }
    r := FilterAll(chosen, expelnodes);
    if suf.Valid() && forall op :: op in pool ==> Distinct(Signers(op.signs)) {
      FoundAgrees(pool, height, suf, ops, found, mask);
    }
  }

  lemma NothingToExpel(suf: Suffrage)
    ensures NothingExpellableAmong(multiset{}, suf)
  {
    forall sel: seq<ExpelOperation> | multiset(sel) <= multiset{}
      ensures sel == []
    {
      assert |multiset(sel)| == |sel|;
    }
  }

  method FilterAll(ops: seq<ExpelOperation>, expelnodes: seq<string>) returns (r: Result<seq<ExpelOperation>, Error>)
    requires expelnodes == ExpelNodes(ops)
    ensures r.Ok? ==> Filtered(ops, r.value)
    ensures r.Err? ==> exists op :: op in ops && FilterSigns(op, expelnodes).Err?
  {
    var filtered: seq<ExpelOperation> := [];
    for i := 0 to |ops|
      invariant |filtered| == i
      invariant forall j :: 0 <= j < i ==> FilterSigns(ops[j], expelnodes) == Ok(filtered[j])
    {
      var j := FilterSigns(ops[i], expelnodes);
      if j.Err? {
        assert ops[i] in ops;
        return Err(j.error);
      }
      filtered := filtered + [j.value];
    }
    return Ok(filtered);
  }

  /** Distinct nodes stay distinct in another order. */
  lemma DistinctOfPermutation(a: seq<ExpelOperation>, b: seq<ExpelOperation>)
    requires multiset(a) == multiset(b) && Distinct(ExpelNodes(a))
    ensures Distinct(ExpelNodes(b))
  {
    SameElements(a, b);
    SameExpelNodes(a, b);
    SameExpelNodes(b, a);
    DistinctCard(ExpelNodes(a));
    assert ToSet(ExpelNodes(a)) == ToSet(ExpelNodes(b));
    CardDistinct(ExpelNodes(b));
  }

  lemma FoundAgrees(pool: Pool, height: int, suf: Suffrage,
                    ops: seq<ExpelOperation>, found: seq<ExpelOperation>, mask: nat)
    requires suf.Valid() && forall op :: op in pool ==> Distinct(Signers(op.signs))
    requires multiset(ops) == multiset(Collected(pool, height, suf))
    requires found != [] && Greatest(ops, suf, mask) && multiset(found) == multiset(Select(ops, mask))
    ensures forall op :: op in found ==> FilterSigns(op, ExpelNodes(found)).Ok?
    ensures forall filtered :: Filtered(found, filtered) ==> FoundAgreeAlways(pool, height, suf, found, filtered)
  {
    CollectedAreEligible(pool, height, suf);
    SameElements(ops, Collected(pool, height, suf));
    SameElements(found, Select(ops, mask));
    forall op | op in found
      ensures FilterSigns(op, ExpelNodes(found)).Ok?
    {
      OwnNode(found, op);
      FilteredSigns(op, ExpelNodes(found));
    }
    forall filtered | Filtered(found, filtered)
      ensures FoundAgreeAlways(pool, height, suf, found, filtered)
    {
      AgreesAlways(pool, height, suf, ops, found, filtered, mask);
    }
  }

  lemma AgreesAlways(pool: Pool, height: int, suf: Suffrage, ops: seq<ExpelOperation>,
                     found: seq<ExpelOperation>, filtered: seq<ExpelOperation>, mask: nat)
    requires suf.Valid() && multiset(ops) == multiset(Collected(pool, height, suf)) && Filtered(found, filtered)
    requires forall op :: op in ops ==> Distinct(Signers(op.signs)) && suf.Exists(op.node)
    requires found != [] && Greatest(ops, suf, mask) && multiset(found) == multiset(Select(ops, mask))
    ensures FoundAgreeAlways(pool, height, suf, found, filtered)
  {
    forall t: Percent
      ensures FoundAgree(pool, height, suf, t, found, filtered)
    {
      FilteredAgrees(suf, t, ops, Collected(pool, height, suf), found, filtered, mask);
    }
  }

  lemma FilteredAgrees(suf: Suffrage, t: Percent, ops: seq<ExpelOperation>, collected: seq<ExpelOperation>,
                       found: seq<ExpelOperation>, filtered: seq<ExpelOperation>, mask: nat)
    requires suf.Valid() && multiset(ops) == multiset(collected) && Filtered(found, filtered)
    requires forall op :: op in ops ==> Distinct(Signers(op.signs)) && suf.Exists(op.node)
    requires found != [] && Greatest(ops, suf, mask) && multiset(found) == multiset(Select(ops, mask))
    ensures var ok, suffice := SuffrageWithExpels(suf, t, filtered).Ok?, SignsSuffice(suf, t, filtered);
      && (ok <==> ToSet(ExpelNodes(found)) != suf.Members() && suffice)
      && (ok ==> AcceptedWithout(suf, t, filtered, ToSet(ExpelNodes(found))))
      && (AsksNoMore(t, suf.Len(), |filtered|) ==> suffice)
      && (Distinct(ExpelNodes(collected)) ==>
            (ok <==> !EveryoneExpelled(collected, suf) && suffice) && Distinct(ExpelNodes(filtered)))
  {
    SameElements(found, Select(ops, mask));
    ExpellableOfPermutation(found, Select(ops, mask), suf);
    AreMembers(ops, suf);
    SameExpelNodes(found, ops);
    VotingAgreesWithValidation(suf, t, found, filtered);
    if Distinct(ExpelNodes(collected)) {
      DistinctOfPermutation(collected, ops);
      FoundAcceptedIff(suf, t, ops, mask, found, filtered);
      EveryoneOfPermutation(ops, collected, suf);
      SelectDistinct(ops, mask);
      DistinctOfPermutation(Select(ops, mask), found);
      FilteredNodes(found, filtered);
    }
  }

  /** Of operations on different nodes every selection is on different nodes. */
  lemma {:induction false} SelectDistinct(ops: seq<ExpelOperation>, i: nat)
    requires Distinct(ExpelNodes(ops))
    ensures Distinct(ExpelNodes(Select(ops, i)))
  {
    if ops != [] {
      var rest := ops[1..];
      assert ExpelNodes(rest) == ExpelNodes(ops)[1..];
      SelectDistinct(rest, i / 2);
      var selected := Select(rest, i / 2);
      SameExpelNodes(selected, rest);
      if i % 2 == 1 {
        assert ExpelNodes(ops)[0] == ops[0].node;
        assert ops[0].node !in ToSet(ExpelNodes(rest));
        assert ExpelNodes([ops[0]] + selected) == [ops[0].node] + ExpelNodes(selected);
        DistinctCons(ops[0].node, ExpelNodes(selected));
      } else {
        assert Select(ops, i) == selected;
      }
    }
  }

  lemma EveryoneOfPermutation(a: seq<ExpelOperation>, b: seq<ExpelOperation>, suf: Suffrage)
    requires multiset(a) == multiset(b)
    ensures EveryoneExpelled(a, suf) <==> EveryoneExpelled(b, suf)
  {
    SameElements(a, b);
    SameExpelNodes(a, b);
    SameExpelNodes(b, a);
    assert ToSet(ExpelNodes(a)) == ToSet(ExpelNodes(b));
  }

  /** What Find promises of the operations it returns, for a validation at the threshold `t`. */
  ghost predicate FoundAgree(pool: Pool, height: int, suf: Suffrage, t: Percent,
                             found: seq<ExpelOperation>, filtered: seq<ExpelOperation>) {
    var ok, suffice := SuffrageWithExpels(suf, t, filtered).Ok?, SignsSuffice(suf, t, filtered);
    && (ok <==> ToSet(ExpelNodes(found)) != suf.Members() && suffice)
    && (ok ==> AcceptedWithout(suf, t, filtered, ToSet(ExpelNodes(found))))
    && (AsksNoMore(t, suf.Len(), |filtered|) ==> suffice)
    && (Distinct(ExpelNodes(Collected(pool, height, suf))) ==>
          && (ok <==> !EveryoneExpelled(Collected(pool, height, suf), suf) && suffice)
          && Distinct(ExpelNodes(filtered)))
  }

  ghost predicate FoundAgreeAlways(pool: Pool, height: int, suf: Suffrage,
                                   found: seq<ExpelOperation>, filtered: seq<ExpelOperation>) {
    forall t: Percent :: FoundAgree(pool, height, suf, t, found, filtered)
  }

  lemma AreMembers(ops: seq<ExpelOperation>, suf: Suffrage)
    requires suf.Valid() && forall op :: op in ops ==> suf.Exists(op.node)
    ensures ToSet(ExpelNodes(ops)) <= suf.Members()
  {
    forall a | a in ToSet(ExpelNodes(ops))
      ensures a in suf.Members()
    {
      NodeOf(ops, a);
    }
  }

  // ---------------------------------------------------------------- voting

  /** The stored operation with the new signs of nodes that have not signed it yet. */
  function Merged(existing: ExpelOperation, newop: ExpelOperation): ExpelOperation {
    existing.(signs := existing.signs + SignsOutside(newop.NodeSigns(), ToSet(Signers(existing.signs))))
  }

  /** The operation of the pool that a vote for `op` goes to. */
  function Target(pool: Pool, op: ExpelOperation): ExpelOperation {
    var i := Lookup(pool, op.start, op.node);
    if i.Some? then i.value else op
  }

  function VoteSpec(hash: FactHash, pool: Pool, local: string, op: ExpelOperation, inState: bool): (Pool, bool) {
    if op.node == local || inState then (pool, false)
    else
      match Lookup(pool, op.start, op.node)
      case None => (Put(hash, pool, op), true)
      case Some(i) =>
        if i == op || Merged(i, op).signs == i.signs then (pool, false)
        else (Put(hash, pool, Merged(i, op)), true)
  }

  class SuffrageVoting {
    const local: string
    const factHash: FactHash
    const hash: ExpelOperation -> string
    var pool: Pool

    constructor (local: string, factHash: FactHash, hash: ExpelOperation -> string)
      ensures this.local == local && this.factHash == factHash && this.hash == hash && pool == []
    {
      this.local, this.factHash, this.hash := local, factHash, hash;
      pool := [];
    }

    /** `inState` is whether the expel fact is already in the state of the block. */
    method Vote(op: ExpelOperation, inState: bool) returns (voted: bool)
      modifies this`pool
      ensures (pool, voted) == VoteSpec(factHash, old(pool), local, op, inState)
    {
      if op.node == local {
        return false;
      }
      if inState {
        return false;
      }
      var i := Lookup(pool, op.start, op.node);
      if i == None {
        pool := Put(factHash, pool, op);
        return true;
      }
      var existing := i.value;
      if existing == op {
        return false;
      }
      var updates := SignsOutside(op.NodeSigns(), ToSet(Signers(existing.signs)));
      if |updates| < 1 {
        return false;
      }
      assert |existing.signs + updates| > |existing.signs|;
      pool := Put(factHash, pool, existing.(signs := existing.signs + updates));
      return true;
    }

    /** Finding the operations to expel with; the pool forgets what is of no use any more. */
    method Find(height: int, suf: Suffrage)
      returns (r: Result<seq<ExpelOperation>, Error>,
               ghost ops: seq<ExpelOperation>, ghost found: seq<ExpelOperation>, ghost mask: nat)
      modifies this`pool
      ensures pool == Cleaned(factHash, old(pool), height, suf)
      ensures multiset(ops) == multiset(Collected(old(pool), height, suf)) && SortedBy(ByHash(hash), ops)
      ensures r == Ok([]) <==> found == []
      ensures found != [] ==> Greatest(ops, suf, mask) && multiset(found) == multiset(Select(ops, mask))
      ensures |ops| < 64 ==> (found == [] <==> NothingExpellableAmong(multiset(Collected(old(pool), height, suf)), suf))
      ensures r.Ok? ==> Filtered(found, r.value)
      ensures suf.Valid() && found != [] && PoolInv(factHash, local, old(pool)) ==>
                && r.Ok? && FoundAgreeAlways(old(pool), height, suf, found, r.value)
                && (suf.Exists(local) ==> ToSet(ExpelNodes(found)) != suf.Members())
    {
      var expires;
      r, expires, ops, found, mask := FindIn(pool, height, suf, hash);
      if suf.Valid() && found != [] && PoolInv(factHash, local, pool) && suf.Exists(local) {
        MemberIsLeft(factHash, local, pool, height, suf, ops, found, mask);
      }
      Clean(height, suf, expires);
    }

    /** What Find defers: forgetting the stranger, and what ended before the height. */
    method Clean(height: int, suf: Suffrage, expires: seq<ExpelOperation>)
      requires expires == if Stranger(pool, height, suf).Some? then [Stranger(pool, height, suf).value] else []
      modifies this`pool
      ensures pool == Cleaned(factHash, old(pool), height, suf)
    {
      if |expires| > 0 {
        pool := RemoveByFact(factHash, pool, expires[0]);
      }
      var h := height - 1;
      if h >= 0 {
        pool := RemoveByHeight(pool, h);
      }
    }
  }

  /** The pool is ordered by its keys, nobody signed an operation twice, and none expels the local node. */
  ghost predicate PoolInv(hash: FactHash, local: string, pool: Pool) {
    Ordered(hash, pool) && forall op :: op in pool ==> Distinct(Signers(op.signs)) && op.node != local
  }

  lemma SignersAppend(a: seq<NodeSign>, b: seq<NodeSign>)
    ensures Signers(a + b) == Signers(a) + Signers(b)
  {
  }

  lemma SignersOutside(signs: seq<NodeSign>, out: set<string>)
    ensures ToSet(Signers(SignsOutside(signs, out))) == ToSet(Signers(signs)) - out
  {
    forall a
      ensures a in Signers(SignsOutside(signs, out)) <==> a in Signers(signs) && a !in out
    {
      InSigners(signs, a);
      InSigners(SignsOutside(signs, out), a);
    }
  }

  lemma InSigners(signs: seq<NodeSign>, a: string)
    ensures a in Signers(signs) <==> exists s :: s in signs && s.node == a
  {
    if a in Signers(signs) {
      var i :| 0 <= i < |signs| && Signers(signs)[i] == a;
      assert signs[i] in signs;
    }
    if s :| s in signs && s.node == a {
      var i :| 0 <= i < |signs| && signs[i] == s;
      assert Signers(signs)[i] == a;
    }
  }

  /** Merging keeps the signs there are, in front, and adds those of other nodes but the expelled one. */
  lemma MergedSigns(existing: ExpelOperation, newop: ExpelOperation)
    ensures Merged(existing, newop) == existing.(signs := Merged(existing, newop).signs)
    ensures existing.signs <= Merged(existing, newop).signs
    ensures forall s :: s in Merged(existing, newop).signs <==>
              s in existing.signs || (s in newop.signs && s.node != newop.node && s.node !in Signers(existing.signs))
  {
  }

  /** Merging joins the signers: nobody is lost, nobody signs twice. */
  lemma MergeJoins(existing: ExpelOperation, newop: ExpelOperation)
    requires Distinct(Signers(existing.signs)) && Distinct(Signers(newop.signs))
    ensures Distinct(Signers(Merged(existing, newop).signs))
    ensures ToSet(Signers(Merged(existing, newop).signs)) ==
            ToSet(Signers(existing.signs)) + (ToSet(Signers(newop.signs)) - {newop.node})
  {
    var out := ToSet(Signers(existing.signs));
    var updates := SignsOutside(newop.NodeSigns(), out);
    SignsOutsideDistinct(newop.signs, {newop.node});
    SignsOutsideDistinct(newop.NodeSigns(), out);
    SignersOutside(newop.signs, {newop.node});
    SignersOutside(newop.NodeSigns(), out);
    SignersAppend(existing.signs, updates);
    DistinctAppend(Signers(existing.signs), Signers(updates));
  }

  /** A vote keeps the order of the pool and the signers distinct, as the agreement with validation needs them. */
  lemma VoteKeepsPool(hash: FactHash, pool: Pool, local: string, op: ExpelOperation, inState: bool)
    requires PoolInv(hash, local, pool) && Distinct(Signers(op.signs))
    ensures PoolInv(hash, local, VoteSpec(hash, pool, local, op, inState).0)
  {
    var target := Target(pool, op);
    if Lookup(pool, op.start, op.node).Some? {
      LookupIff(hash, pool, op.start, op.node, target);
      MergeJoins(target, op);
      PutKeeps(hash, pool, Merged(target, op));
    } else {
      PutKeeps(hash, pool, op);
    }
  }

  /**
   * A vote counts exactly if it is not about the local node, its fact is not in the state, and the
   * pool has nothing for it or lacks one of its signers. Otherwise the pool stays as it is.
   */
  lemma VoteCountsIff(hash: FactHash, pool: Pool, local: string, op: ExpelOperation, inState: bool)
    ensures var (pool', voted) := VoteSpec(hash, pool, local, op, inState);
      && (voted <==>
            && op.node != local && !inState
            && match Lookup(pool, op.start, op.node)
               case None => true
               case Some(i) => exists s :: s in op.signs && s.node != op.node && s.node !in Signers(i.signs))
      && (!voted ==> pool' == pool)
  {
    var i := Lookup(pool, op.start, op.node);
    if i.Some? {
      MergedSigns(i.value, op);
      var updates := SignsOutside(op.NodeSigns(), ToSet(Signers(i.value.signs)));
      if updates == [] {
        assert i.value.signs + updates == i.value.signs;
        forall s | s in op.signs && s.node != op.node
          ensures s.node in Signers(i.value.signs)
        {
          assert s in op.NodeSigns();
        }
      } else {
        assert updates[0] in updates;
        assert |Merged(i.value, op).signs| > |i.value.signs|;
        if i.value == op {
          InSigners(op.signs, updates[0].node);
        }
      }
    }
  }

  /** A vote that counts changes one operation only, and adds its signers to those of the one it finds. */
  lemma VoteFrame(hash: FactHash, pool: Pool, local: string, op: ExpelOperation, inState: bool)
    requires PoolInv(hash, local, pool) && Distinct(Signers(op.signs))
    requires VoteSpec(hash, pool, local, op, inState).1
    ensures var (pool', target) := (VoteSpec(hash, pool, local, op, inState).0, Target(pool, op));
      exists b :: b in pool' && b == target.(signs := b.signs)
        && (forall x :: x in pool' <==> x == b || (x in pool && !SameKey(hash, target, x)))
        && ToSet(Signers(b.signs)) ==
           (if Lookup(pool, op.start, op.node).Some? then
              ToSet(Signers(target.signs)) + (ToSet(Signers(op.signs)) - {op.node})
            else ToSet(Signers(op.signs)))
        && target.signs <= b.signs
        && forall s :: s in b.signs ==> s in target.signs || s in op.signs
  {
    var target := Target(pool, op);
    MergedSigns(target, op);
    if Lookup(pool, op.start, op.node).Some? {
      LookupIff(hash, pool, op.start, op.node, target);
      MergeJoins(target, op);
      PutKeeps(hash, pool, Merged(target, op));
      assert Merged(target, op) in VoteSpec(hash, pool, local, op, inState).0;
    } else {
      PutKeeps(hash, pool, op);
      assert op in VoteSpec(hash, pool, local, op, inState).0;
    }
  }

  /** Every operation of `pool` is still there, with its signers. */
  ghost predicate KeepsSigners(hash: FactHash, pool: Pool, pool': Pool) {
    forall a :: a in pool ==> KeptIn(hash, a, pool')
  }

  ghost predicate KeptIn(hash: FactHash, a: ExpelOperation, pool: Pool) {
    exists b :: b in pool && SameKey(hash, a, b) && ToSet(Signers(a.signs)) <= ToSet(Signers(b.signs))
  }

  /** The lookup misses the operation that the vote is for, which has signers that the vote does not bring. */
  ghost predicate Overwrites(hash: FactHash, pool: Pool, op: ExpelOperation) {
    && Lookup(pool, op.start, op.node) == None
    && exists a :: a in pool && SameKey(hash, a, op) && !(ToSet(Signers(a.signs)) <= ToSet(Signers(op.signs)))
  }

  /** A vote loses signers exactly if it overwrites the operation it is for. */
  lemma VoteKeepsSignersIff(hash: FactHash, pool: Pool, local: string, op: ExpelOperation, inState: bool)
    requires PoolInv(hash, local, pool) && Distinct(Signers(op.signs))
    ensures KeepsSigners(hash, pool, VoteSpec(hash, pool, local, op, inState).0) <==>
            op.node == local || inState || !Overwrites(hash, pool, op)
  {
    var (pool', voted) := VoteSpec(hash, pool, local, op, inState);
    if !voted {
      forall a | a in pool
        ensures KeptIn(hash, a, pool')
      {
      }
    } else {
      VoteFrame(hash, pool, local, op, inState);
      var target := Target(pool, op);
      var b :| b in pool' && b == target.(signs := b.signs)
               && (forall x :: x in pool' <==> x == b || (x in pool && !SameKey(hash, target, x)))
               && ToSet(Signers(b.signs)) ==
                  if Lookup(pool, op.start, op.node).Some? then
                    ToSet(Signers(target.signs)) + (ToSet(Signers(op.signs)) - {op.node})
                  else ToSet(Signers(op.signs));
      forall a | a in pool
        ensures KeptIn(hash, a, pool') <==>
                !SameKey(hash, a, target) || ToSet(Signers(a.signs)) <= ToSet(Signers(b.signs))
      {
        KeptOnlyBy(hash, pool, pool', target, a, b);
      }
      if Lookup(pool, op.start, op.node).Some? {
        LookupIff(hash, pool, op.start, op.node, target);
        forall a | a in pool && SameKey(hash, a, target)
          ensures a == target
        {
          OneOfAKey(hash, pool, a, target);
        }
      }
    }
  }

  lemma KeptOnlyBy(hash: FactHash, pool: Pool, pool': Pool, target: ExpelOperation, a: ExpelOperation, b: ExpelOperation)
    requires Ordered(hash, pool) && a in pool
    requires SameKey(hash, b, target)
    requires forall x :: x in pool' <==> x == b || (x in pool && !SameKey(hash, target, x))
    ensures KeptIn(hash, a, pool') <==>
            !SameKey(hash, a, target) || ToSet(Signers(a.signs)) <= ToSet(Signers(b.signs))
  {
    if SameKey(hash, a, target) {
      if ToSet(Signers(a.signs)) <= ToSet(Signers(b.signs)) {
        assert b in pool';
      }
    } else {
      assert a in pool';
    }
  }

  // ---------------------------------------------------------------- runs

  datatype Action =
    | ActVote(op: ExpelOperation, inState: bool)
    | ActFind(height: int, suf: Suffrage)

  function Step(hash: FactHash, local: string, pool: Pool, a: Action): Pool {
    match a
    case ActVote(op, inState) => VoteSpec(hash, pool, local, op, inState).0
    case ActFind(height, suf) => Cleaned(hash, pool, height, suf)
  }

  function Run(hash: FactHash, local: string, pool: Pool, actions: seq<Action>): Pool
    decreases actions
  {
    if actions == [] then pool else Run(hash, local, Step(hash, local, pool, actions[0]), actions[1..])
  }

  lemma {:induction false} RunKeepsPool(hash: FactHash, local: string, pool: Pool, actions: seq<Action>)
    requires PoolInv(hash, local, pool)
    requires forall a :: a in actions && a.ActVote? ==> Distinct(Signers(a.op.signs))
    ensures PoolInv(hash, local, Run(hash, local, pool, actions))
    decreases actions
  {
    if actions != [] {
      match actions[0] {
        case ActVote(op, inState) => VoteKeepsPool(hash, pool, local, op, inState);
        case ActFind(height, suf) => CleanedKeeps(hash, pool, height, suf);
      }
      RunKeepsPool(hash, local, Step(hash, local, pool, actions[0]), actions[1..]);
    }
  }

  /** One vote for each of the signs. */
  function VotesFor(fact: ExpelOperation, signs: seq<NodeSign>): (r: seq<Action>)
    ensures |r| == |signs|
  {
    seq(|signs|, i requires 0 <= i < |signs| => ActVote(fact.(signs := [signs[i]]), false))
  }

  /** Vote by vote the signs gather in the operation. */
  lemma {:induction false} VotesGather(
      hash: FactHash, local: string, fact: ExpelOperation, have: seq<NodeSign>, more: seq<NodeSign>)
    requires fact.node != local && fact.start <= fact.end && have != []
    requires Distinct(Signers(have + more)) && fact.node !in Signers(have + more)
    ensures Run(hash, local, [fact.(signs := have)], VotesFor(fact, more)) == [fact.(signs := have + more)]
    decreases more
  {
    if more == [] {
      assert have + more == have;
    } else {
      var s, rest, votes := more[0], more[1..], VotesFor(fact, more);
      assert votes[0] == ActVote(fact.(signs := [s]), false) && votes[1..] == VotesFor(fact, rest);
      assert have + [s] + rest == have + more;
      OneVoteGathers(hash, local, fact, have, s, rest);
      VotesGather(hash, local, fact, have + [s], rest);
    }
  }

  lemma OneVoteGathers(hash: FactHash, local: string, fact: ExpelOperation,
                       have: seq<NodeSign>, s: NodeSign, rest: seq<NodeSign>)
    requires fact.node != local && fact.start <= fact.end && have != []
    requires Distinct(Signers(have + [s] + rest)) && fact.node !in Signers(have + [s] + rest)
    ensures Step(hash, local, [fact.(signs := have)], ActVote(fact.(signs := [s]), false)) ==
            [fact.(signs := have + [s])]
  {
    var there, op := fact.(signs := have), fact.(signs := [s]);
    var all := have + [s] + rest;
    assert Signers(all)[|have|] == s.node;
    forall x | x in have
      ensures x.node != s.node
    {
      var i :| 0 <= i < |have| && have[i] == x;
      assert Signers(all)[i] == x.node;
    }
    InSigners(have, s.node);
    SignsOutsideNone(op.signs, {op.node});
    SignsOutsideNone(op.signs, ToSet(Signers(have)));
    assert Merged(there, op) == fact.(signs := have + [s]);
    AboveIsStrictOrder(hash, Merged(there, op), there, there);
    assert [there][1..] == [];
  }

  /** A member does not vote to expel itself, and so it is left. */
  lemma MemberIsLeft(hash: FactHash, local: string, pool: Pool, height: int, suf: Suffrage,
                     ops: seq<ExpelOperation>, found: seq<ExpelOperation>, mask: nat)
    requires PoolInv(hash, local, pool) && suf.Valid() && suf.Exists(local)
    requires multiset(ops) == multiset(Collected(pool, height, suf))
    requires multiset(found) == multiset(Select(ops, mask))
    ensures ToSet(ExpelNodes(found)) != suf.Members()
  {
    CollectedAreEligible(pool, height, suf);
    SameElements(ops, Collected(pool, height, suf));
    SameElements(found, Select(ops, mask));
    NodeOf(found, local);
    assert local in suf.Members();
  }

  /**
   * After every run of votes and searches, what the search of a member finds is accepted by
   * validation exactly if its threshold does not ask for more signs; the new suffrage is exactly
   * the members that are not expelled.
   */
  lemma FoundInRunsAccepted(
      hash: FactHash, local: string, actions: seq<Action>, height: int, suf: Suffrage, t: Percent,
      ops: seq<ExpelOperation>, found: seq<ExpelOperation>, filtered: seq<ExpelOperation>, mask: nat)
    requires forall a :: a in actions && a.ActVote? ==> Distinct(Signers(a.op.signs))
    requires suf.Valid() && suf.Exists(local)
    requires multiset(ops) == multiset(Collected(Run(hash, local, [], actions), height, suf))
    requires found != [] && Greatest(ops, suf, mask) && multiset(found) == multiset(Select(ops, mask))
    requires Filtered(found, filtered)
    ensures AcceptedWithout(suf, t, filtered, ToSet(ExpelNodes(found))) <==> SignsSuffice(suf, t, filtered)
    ensures AsksNoMore(t, suf.Len(), |filtered|) ==> AcceptedWithout(suf, t, filtered, ToSet(ExpelNodes(found)))
  {
    var pool := Run(hash, local, [], actions);
    RunKeepsPool(hash, local, [], actions);
    MemberIsLeft(hash, local, pool, height, suf, ops, found, mask);
    FoundAgrees(pool, height, suf, ops, found, mask);
    assert FoundAgreeAlways(pool, height, suf, found, filtered);
    assert FoundAgree(pool, height, suf, t, found, filtered);
  }

  // ---------------------------------------------------------------- at other thresholds

  /** Sets of `k` operations that voting may find, and what is left of their signs. */
  ghost predicate Findable(suf: Suffrage, k: nat, found: seq<ExpelOperation>, filtered: seq<ExpelOperation>) {
    && |found| == k && Expellable(found, suf) && Filtered(found, filtered)
    && (forall op :: op in found ==> Distinct(Signers(op.signs)))
    && Distinct(ExpelNodes(found)) && ToSet(ExpelNodes(found)) <= suf.Members()
  }

  ghost predicate AllAcceptedAt(suf: Suffrage, t: Percent, k: nat) {
    forall found, filtered :: Findable(suf, k, found, filtered) ==> SuffrageWithExpels(suf, t, filtered).Ok?
  }

  /** A threshold asks for no more exactly if it is no higher, or all the others have to sign anyway. */
  lemma AsksNoMoreIff(t: Percent, n: nat, k: nat)
    requires Thresholds.IsValid(t) && k <= n
    ensures ExpelThreshold(t, n, k) == Min(Votes(t, n), n - k)
    ensures AsksNoMore(t, n, k) <==> Votes(t, n) <= Votes(DEFAULT_THRESHOLD, n) || k >= n - Votes(DEFAULT_THRESHOLD, n)
  {
    VotesOfValid(t, n);
    VotesOfValid(DEFAULT_THRESHOLD, n);
  }

  /** `k` members are expelled by as many others as voting asks for. */
  lemma LeastSigned(suf: Suffrage, k: nat) returns (found: seq<ExpelOperation>)
    requires suf.Valid() && 0 < k < suf.Len()
    ensures Findable(suf, k, found, found)
    ensures forall op :: op in found ==> |op.NodeSigns()| == ExpelThreshold(DEFAULT_THRESHOLD, suf.Len(), k)
  {
    var all, th := Addresses(suf.ns), ExpelThreshold(DEFAULT_THRESHOLD, suf.Len(), k);
    AsksNoMoreIff(DEFAULT_THRESHOLD, suf.Len(), k);
    var nodes, signers := all[..k], all[k..k + th];
    found := ExpelAll(nodes, signers, 0);
    Apart(all, k, th);
    forall a | a in all
      ensures suf.Exists(a)
    {
      assert a in ToSet(all);
    }
    SignedByOthers(found, suf);
    assert Filtered(found, found);
    assert forall a :: a in ToSet(nodes) ==> a in suf.Members();
  }

  lemma Apart(all: seq<string>, k: nat, th: nat)
    requires Distinct(all) && k + th <= |all|
    ensures Distinct(all[..k]) && Distinct(all[k..k + th])
    ensures forall a :: a in all[k..k + th] ==> a !in all[..k]
    ensures forall a :: a in all[..k] || a in all[k..k + th] ==> a in all
  {
  }

  /** Everything that voting may find is accepted at a threshold exactly if it asks for no more signs. */
  lemma AllAcceptedAtIff(suf: Suffrage, t: Percent, k: nat)
    requires suf.Valid() && 0 < k < suf.Len()
    ensures AllAcceptedAt(suf, t, k) <==> AsksNoMore(t, suf.Len(), k)
  {
    if AsksNoMore(t, suf.Len(), k) {
      forall found, filtered | Findable(suf, k, found, filtered)
        ensures SuffrageWithExpels(suf, t, filtered).Ok?
      {
        AllOrFewer(suf, ExpelNodes(found));
        VotingAgreesWithValidation(suf, t, found, filtered);
      }
    } else {
      var found := LeastSigned(suf, k);
      VotingAgreesWithValidation(suf, t, found, found);
      assert found[0] in found;
    }
  }

  /** Stuck voteproofs have the maximal threshold: of seven members five expel one, and are refused. */
  lemma StuckAsksForMore(suf: Suffrage) returns (found: seq<ExpelOperation>)
    requires suf.Valid() && suf.Len() == 7
    ensures Findable(suf, 1, found, found) && |found[0].NodeSigns()| == 5
    ensures SuffrageWithExpels(suf, DEFAULT_THRESHOLD, found).Ok?
    ensures SuffrageWithExpels(suf, MAX_THRESHOLD, found) == Err(InsufficientSigns)
  {
    found := LeastSigned(suf, 1);
    AsksNoMoreIff(DEFAULT_THRESHOLD, 7, 1);
    AsksNoMoreIff(MAX_THRESHOLD, 7, 1);
    VotesRoundUp(DEFAULT_THRESHOLD, 7);
    VotesAtMax(7);
    AllOrFewer(suf, ExpelNodes(found));
    VotingAgreesWithValidation(suf, DEFAULT_THRESHOLD, found, found);
    assert found[0] in found;
  }

  // ---------------------------------------------------------------- keys

  /** Members signed with their own keys. */
  predicate SignedWithKeys(suf: Suffrage, ops: seq<ExpelOperation>) {
    forall op, s :: op in ops && s in op.NodeSigns() ==> suf.ExistsPublickey(s.node, s.signer)
  }

  /** Voting looks at the addresses of signers only: what it finds is known exactly if the keys are right too. */
  lemma FoundKnownIff(suf: Suffrage, height: int, found: seq<ExpelOperation>, ops: seq<ExpelOperation>)
    requires Filtered(found, ops) && forall op :: op in found ==> Eligible(op, height, suf)
    ensures (forall op :: op in ops ==> IsValidExpelWithSuffrage(height, op, suf) == None) <==> SignedWithKeys(suf, ops)
  {
    forall op | op in ops
      ensures op.end >= height && suf.Exists(op.node)
    {
      var i :| 0 <= i < |ops| && ops[i] == op;
      assert found[i] in found;
      assert FilterSigns(found[i], ExpelNodes(found)) == Ok(ops[i]);
    }
  }

  /** Three members expel the fourth with a key that is not theirs: voting finds it, validation does not know it. */
  lemma WrongKeyIsFound(suf: Suffrage, op: ExpelOperation, key: string, height: int)
    requires OfFour(suf) && forall a :: a in suf.m ==> suf.m[a].publickey != key
    requires op.node == "d" && op.signs == [NodeSign("a", key), NodeSign("b", key), NodeSign("c", key)]
    requires Covers(op, height)
    ensures Expellable([op], suf)
    ensures IsValidExpelWithSuffrage(height, op, suf) == Some(UnknownSigner)
  {
    ThreeExpelTheFourth(suf, op);
    SignsOutsideNone(op.signs, {"d"});
    assert op.signs[0] in op.NodeSigns();
  }

  // ---------------------------------------------------------------- pools that hide or lose something

  /**
   * Operations on a node which is no member, or for later heights, that end later than another
   * operation hide it: it is neither collected nor expelled, although it can be.
   */
  lemma ExpellableIsHidden(hash: FactHash, suf: Suffrage, hides: ExpelOperation, height: int)
    requires OfFour(suf) && Blocks(hides, height, suf) && hides.end > height
    ensures var pool := [hides, OnTheFourth(height, height)];
      && Ordered(hash, pool)
      && Collected(pool, height, suf) == []
      && AllEligible(pool, height, suf) == [pool[1]] && Expellable([pool[1]], suf)
  {
    var pool := [hides, OnTheFourth(height, height)];
    ThreeExpelTheFourth(suf, pool[1]);
    assert pool[1..] == [pool[1]];
    assert AllEligible(pool[1..], height, suf) == [pool[1]];
  }

  /** What a vote for `op` makes of the pool of the node "c". */
  function Voted(hash: FactHash, pool: Pool, op: ExpelOperation): Pool {
    VoteSpec(hash, pool, "c", op, false).0
  }

  /** An operation that the lookup does not find is stored beside the one that is there. */
  lemma StoredBeside(hash: FactHash, there: ExpelOperation, op: ExpelOperation)
    requires there.node == op.node != "c" && !Covers(there, op.start)
    requires Above(hash, op, there)
    ensures Voted(hash, Voted(hash, [], there), op) == [op, there]
  {
    assert Voted(hash, [], there) == [there];
    assert Lookup([there], op.start, op.node) == None;
  }

  /**
   * A vote for a fact after a later one on the same node overwrites what was signed before: the
   * signer is lost.
   */
  lemma SignerLost(hash: FactHash)
    ensures var first, later, again :=
              ExpelOperation("d", 1, 2, SignedBy(["a"])), ExpelOperation("d", 3, 4, SignedBy(["a"])),
              ExpelOperation("d", 1, 2, SignedBy(["b"]));
      && Voted(hash, Voted(hash, [], first), later) == [later, first]
      && Voted(hash, [later, first], again) == [later, again]
      && Overwrites(hash, [later, first], again)
  {
    var first, later, again :=
      ExpelOperation("d", 1, 2, SignedBy(["a"])), ExpelOperation("d", 3, 4, SignedBy(["a"])),
      ExpelOperation("d", 1, 2, SignedBy(["b"]));
    StoredBeside(hash, first, later);
    StoredAgain(hash, later, first, again);
    assert first in [later, first] && Signers(first.signs) == ["a"] && Signers(again.signs) == ["b"];
    assert "a" in ToSet(["a"]) && "a" !in ToSet(["b"]);
  }

  /** The lookup meets the later operation first, and so misses the one that is voted for again. */
  lemma StoredAgain(hash: FactHash, later: ExpelOperation, first: ExpelOperation, again: ExpelOperation)
    requires later.node == again.node != "c" && !Covers(later, again.start) && Above(hash, later, again)
    requires SameKey(hash, again, first)
    ensures Lookup([later, first], again.start, again.node) == None
    ensures Voted(hash, [later, first], again) == [later, again]
  {
    var pool := [later, first];
    assert pool[1..] == [first] && [first][1..] == [];
    AboveIsStrictOrder(hash, again, first, first);
    AboveIsStrictOrder(hash, later, again, again);
    assert Put(hash, [first], again) == [again];
    assert Put(hash, pool, again) == [later] + Put(hash, [first], again);
  }

  /**
   * Two operations on one node count as two: two signs are enough for both together, though not
   * for either alone. A suffrage without the node is made of them, but no valid voteproof has them.
   */
  lemma TwoOperationsOnOneNode(
      hash: FactHash, suf: Suffrage, first: ExpelOperation, second: ExpelOperation, height: int, vp: Voteproof)
    requires suf.Valid() && OfFour(suf)
    requires TwoSignTheFourth(first, height) && TwoSignTheFourth(second, height)
    requires second.start < first.start && first.end < second.end
    ensures var both := [second, first];
      && Voted(hash, Voted(hash, [], first), second) == both
      && Collected(both, height, suf) == both
      && Expellable(both, suf) && !Expellable([first], suf) && !Expellable([second], suf)
      && AcceptedWithout(suf, DEFAULT_THRESHOLD, both, {"d"})
      && (vp.expels == both ==> !ValidExpels(vp))
  {
    SignersOfTwo(first, height);
    SignersOfTwo(second, height);
    BothCollected(hash, suf, first, second, height);
    assert ExpelNodes([second, first])[0] == ExpelNodes([second, first])[1];
    TwoSignsSuffice(suf, first, second);
    AcceptedOnTheFourth(suf, [second, first]);
  }

  lemma BothCollected(hash: FactHash, suf: Suffrage, first: ExpelOperation, second: ExpelOperation, height: int)
    requires first.node == second.node != "c" && !Covers(first, second.start) && Above(hash, second, first)
    requires Eligible(first, height, suf) && Eligible(second, height, suf)
    ensures Voted(hash, Voted(hash, [], first), second) == [second, first]
    ensures Collected([second, first], height, suf) == [second, first]
  {
    StoredBeside(hash, first, second);
    assert [second, first][1..] == [first] && [first][1..] == [];
    assert Collected([first], height, suf) == [first];
  }

  /** Two members expel the fourth. */
  predicate TwoSignTheFourth(op: ExpelOperation, height: int) {
    op.node == "d" && Covers(op, height) && Signers(op.signs) in [["a", "b"], ["b", "c"], ["a", "c"]]
  }

  lemma SignersOfTwo(op: ExpelOperation, height: int)
    requires TwoSignTheFourth(op, height)
    ensures |op.signs| == 2 && Distinct(Signers(op.signs))
    ensures forall s :: s in op.signs ==> s.node in ["a", "b", "c"]
  {
    forall s | s in op.signs
      ensures s.node in ["a", "b", "c"]
    {
      var i :| 0 <= i < |op.signs| && op.signs[i] == s;
      assert Signers(op.signs)[i] == s.node;
    }
  }

  lemma TwoSignsSuffice(suf: Suffrage, first: ExpelOperation, second: ExpelOperation)
    requires OfFour(suf) && first.node == second.node == "d" && |first.signs| == |second.signs| == 2
    requires forall s :: s in first.signs || s in second.signs ==> s.node in ["a", "b", "c"]
    ensures Expellable([second, first], suf)
    ensures !Expellable([first], suf) && !Expellable([second], suf)
  {
    OneOfFourThreshold();
    TwoOfFourThreshold();
    assert ExpelNodes([second, first]) == ["d", "d"];
    assert ExpelNodes([first]) == ExpelNodes([second]) == ["d"];
    SignedByOthers([second, first], suf);
    SignedByOthers([first], suf);
    SignedByOthers([second], suf);
    assert first in [first] && second in [second];
  }

  lemma TwoOfFourThreshold()
    ensures ExpelThreshold(DEFAULT_THRESHOLD, 4, 2) == 2
  {
    OneOfFourThreshold();
    VotesRoundUp(DEFAULT_THRESHOLD, 4);
  }
}
