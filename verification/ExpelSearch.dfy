/** Choosing whom to expel: the search over all sets of operations (isaac/suffrage_voting.go). */
module ExpelSearch {
  import opened Wrappers
  import opened Sequences
  import opened Thresholds
  import opened Suffrages

  // ---------------------------------------------------------------- masks

  function Pow2(n: nat): (p: nat)
    ensures p >= 1
  {
    if n == 0 then 1 else 2 * Pow2(n - 1)
  }

  /** `(i>>j)&1 == 1`, a shift to the right being `j` halvings. */
  predicate Bit(i: nat, j: nat) {
    if j == 0 then i % 2 == 1 else Bit(i / 2, j - 1)
  }

  function OnesCount(i: nat): nat {
    if i == 0 then 0 else i % 2 + OnesCount(i / 2)
  }

  /** `(1<<length)-1` on 64-bit integers: shifting by 64 or more gives 0. */
  function FullMask(length: nat): int {
    if length < 64 then Pow2(length) - 1 else -1
  }

  /** The operations whose bit is set, in their order. */
  function Select(ops: seq<ExpelOperation>, i: nat): (r: seq<ExpelOperation>)
    ensures |r| <= |ops|
    ensures forall op :: op in r ==> op in ops
  {
    if ops == [] then []
    else (if i % 2 == 1 then [ops[0]] else []) + Select(ops[1..], i / 2)
  }

  lemma {:induction false} SelectSnoc(ops: seq<ExpelOperation>, last: ExpelOperation, i: nat)
    ensures Select(ops + [last], i) == Select(ops, i) + (if Bit(i, |ops|) then [last] else [])
  {
    if ops == [] {
      assert Select([last], i) == (if i % 2 == 1 then [last] else []) + Select([], i / 2);
    } else {
      SelectSnoc(ops[1..], last, i / 2);
      assert (ops + [last])[1..] == ops[1..] + [last];
    }
  }

  lemma {:induction false} SelectSize(ops: seq<ExpelOperation>, i: nat)
    requires i < Pow2(|ops|)
    ensures |Select(ops, i)| == OnesCount(i)
  {
    if ops == [] {
      assert i == 0;
    } else {
      SelectSize(ops[1..], i / 2);
    }
  }

  // ---------------------------------------------------------------- masks are the subsets

  /** The operations that are flagged. */
  function Sub(ops: seq<ExpelOperation>, flags: seq<bool>): seq<ExpelOperation>
    requires |flags| == |ops|
  {
    if ops == [] then [] else (if flags[0] then [ops[0]] else []) + Sub(ops[1..], flags[1..])
  }

  function MaskOf(flags: seq<bool>): (i: nat)
    ensures i < Pow2(|flags|)
  {
    if flags == [] then 0 else (if flags[0] then 1 else 0) + 2 * MaskOf(flags[1..])
  }

  function FlagsOf(i: nat, length: nat): (flags: seq<bool>)
    ensures |flags| == length
  {
    if length == 0 then [] else [i % 2 == 1] + FlagsOf(i / 2, length - 1)
  }

  lemma {:induction false} FlagsOfMask(flags: seq<bool>)
    ensures FlagsOf(MaskOf(flags), |flags|) == flags
  {
    if flags != [] {
      FlagsOfMask(flags[1..]);
    }
  }

  lemma {:induction false} MaskOfFlags(i: nat, length: nat)
    requires i < Pow2(length)
    ensures MaskOf(FlagsOf(i, length)) == i
  {
    if length > 0 {
      MaskOfFlags(i / 2, length - 1);
    }
  }

  lemma {:induction false} SelectIsSub(ops: seq<ExpelOperation>, flags: seq<bool>)
    requires |flags| == |ops|
    ensures Select(ops, MaskOf(flags)) == Sub(ops, flags)
  {
    if ops != [] {
      SelectIsSub(ops[1..], flags[1..]);
    }
  }

  lemma {:induction false} EmptyMask(flags: seq<bool>)
    ensures MaskOf(flags) == 0 <==> true !in flags
  {
    if flags != [] {
      EmptyMask(flags[1..]);
      assert flags == [flags[0]] + flags[1..];
    }
  }

  // ---------------------------------------------------------------- which sets can be expelled

  /** Only members sign `op`, and at least `th` of them are not in `out`. */
  predicate SignedEnough(op: ExpelOperation, out: set<string>, th: nat, suf: Suffrage) {
    && (forall s :: s in op.NodeSigns() ==> suf.Exists(s.node))
    && |SignsOutside(op.NodeSigns(), out)| >= th
  }

  /** Every operation of the set is signed enough outside the nodes that the set expels. */
  predicate Expellable(sel: seq<ExpelOperation>, suf: Suffrage) {
    var out := ToSet(ExpelNodes(sel));
    var th := ExpelThreshold(DEFAULT_THRESHOLD, suf.Len(), |sel|);
    forall op :: op in sel ==> SignedEnough(op, out, th, suf)
  }

  lemma SameExpelNodes(a: seq<ExpelOperation>, b: seq<ExpelOperation>)
    requires forall op :: op in a ==> op in b
    ensures ToSet(ExpelNodes(a)) <= ToSet(ExpelNodes(b))
  {
    forall x | x in ExpelNodes(a)
      ensures x in ExpelNodes(b)
    {
      var i :| 0 <= i < |a| && a[i].node == x;
      assert a[i] in b;
      var j :| 0 <= j < |b| && b[j] == a[i];
      assert ExpelNodes(b)[j] == x;
    }
  }

  lemma SameElements<T>(a: seq<T>, b: seq<T>)
    requires multiset(a) == multiset(b)
    ensures |a| == |b| && forall x :: x in a <==> x in b
  {
    assert |a| == |multiset(a)| == |multiset(b)| == |b|;
    assert forall x :: x in a <==> x in multiset(a);
  }

  lemma ExpellableOfPermutation(a: seq<ExpelOperation>, b: seq<ExpelOperation>, suf: Suffrage)
    requires multiset(a) == multiset(b)
    ensures Expellable(a, suf) == Expellable(b, suf)
  {
    SameElements(a, b);
    SameExpelNodes(a, b);
    SameExpelNodes(b, a);
    assert ToSet(ExpelNodes(a)) == ToSet(ExpelNodes(b));
  }

  // ---------------------------------------------------------------- the search

  /** The filter of single operations: it never drops a member of an expellable set. */
  method FilterOperation(n: nat, op: ExpelOperation, suf: Suffrage) returns (pass: bool)
    ensures pass <==> && (forall s :: s in op.NodeSigns() ==> suf.Exists(s.node))
                      && |op.NodeSigns()| >= ExpelThreshold(DEFAULT_THRESHOLD, suf.Len(), n)
  {
    var signs := op.NodeSigns();
    for j := 0 to |signs|
      invariant forall l :: 0 <= l < j ==> suf.Exists(signs[l].node)
    {
      if !suf.Exists(signs[j].node) {
        assert signs[j] in op.NodeSigns();
        return false;
      }
    }
    var threshold := Votes(DEFAULT_THRESHOLD, suf.Len());
    var newthreshold := threshold;
    if n > UintSub(suf.Len(), threshold) {
      newthreshold := UintSub(suf.Len(), n);
    }
    return |signs| >= newthreshold;
  }

  /** The callback on whole sets: is every operation signed enough outside the set? */
  method EnoughOutside(ops: seq<ExpelOperation>, suf: Suffrage) returns (enough: bool)
    ensures enough <==> forall op :: op in ops ==>
              |SignsOutside(op.NodeSigns(), ToSet(ExpelNodes(ops)))| >=
              ExpelThreshold(DEFAULT_THRESHOLD, suf.Len(), |ops|)
  {
    var threshold := Votes(DEFAULT_THRESHOLD, suf.Len());
    var newthreshold := threshold;
    var i := |ops|;
    if i > UintSub(suf.Len(), threshold) {
      newthreshold := UintSub(suf.Len(), i);
    }
    var nodes := ToSet(ExpelNodes(ops));
    for j := 0 to |ops|
      invariant forall l :: 0 <= l < j ==> |SignsOutside(ops[l].NodeSigns(), nodes)| >= newthreshold
    {
      if |SignsOutside(ops[j].NodeSigns(), nodes)| < newthreshold {
        assert ops[j] in ops;
        return false;
      }
    }
    return true;
  }

  // ---------------------------------------------------------------- sorting

  /** Does the first operation come before the second, or next to it? */
  type Before = (ExpelOperation, ExpelOperation) -> bool

  ghost predicate IsPreorder(le: Before) {
    && (forall a, b :: le(a, b) || le(b, a))
    && forall a, b, c :: le(a, b) && le(b, c) ==> le(a, c)
  }

  ghost predicate SortedBy(le: Before, s: seq<ExpelOperation>) {
    forall i, j :: 0 <= i < j < |s| ==> le(s[i], s[j])
  }

  function Insert(le: Before, x: ExpelOperation, s: seq<ExpelOperation>): (r: seq<ExpelOperation>)
    ensures multiset(r) == multiset(s) + multiset{x}
  {
    if s == [] then [x]
    else if le(s[0], x) then
      assert s == [s[0]] + s[1..];
      [s[0]] + Insert(le, x, s[1..])
    else [x] + s
  }

  lemma {:induction false} InsertSorted(le: Before, x: ExpelOperation, s: seq<ExpelOperation>)
    requires IsPreorder(le) && SortedBy(le, s)
    ensures SortedBy(le, Insert(le, x, s))
  {
    if s != [] && le(s[0], x) {
      var rest := Insert(le, x, s[1..]);
      InsertSorted(le, x, s[1..]);
      forall y | y in rest
        ensures le(s[0], y)
      {
        assert y in multiset(rest);
      }
    } else if s != [] {
      assert forall y :: y in s ==> le(s[0], y) || y == s[0];
    }
  }

  method Sort(le: Before, ops: seq<ExpelOperation>) returns (r: seq<ExpelOperation>)
    requires IsPreorder(le)
    ensures multiset(r) == multiset(ops)
    ensures SortedBy(le, r)
  {
    r := [];
    for i := 0 to |ops|
      invariant multiset(r) == multiset(ops[..i])
      invariant SortedBy(le, r)
    {
      assert ops[..i + 1] == ops[..i] + [ops[i]];
      InsertSorted(le, ops[i], r);
      r := Insert(le, ops[i], r);
    }
    assert ops[..|ops|] == ops;
  }

  /** Less signed first. */
  predicate LessSigned(a: ExpelOperation, b: ExpelOperation) {
    |a.NodeSigns()| <= |b.NodeSigns()|
  }

  // ---------------------------------------------------------------- masks that can be expelled

  /** The inner loop: the operations of mask `i`, unless the filter drops one of them. */
  method Gather(ops: seq<ExpelOperation>, i: nat, n: nat, suf: Suffrage) returns (r: Option<seq<ExpelOperation>>)
    requires i < Pow2(|ops|) && n == OnesCount(i)
    ensures r.Some? ==> r.value == Select(ops, i)
    ensures r.Some? ==> forall op, s :: op in r.value && s in op.NodeSigns() ==> suf.Exists(s.node)
    ensures r.None? ==> !Expellable(Select(ops, i), suf)
  {
    SelectSize(ops, i);
    var chosen: seq<ExpelOperation> := [];
    for j := 0 to |ops|
      invariant chosen == Select(ops[..j], i)
      invariant forall op, s :: op in chosen && s in op.NodeSigns() ==> suf.Exists(s.node)
    {
      SelectSnoc(ops[..j], ops[j], i);
      assert ops[..j + 1] == ops[..j] + [ops[j]];
      if Bit(i, j) {
        var pass := FilterOperation(n, ops[j], suf);
        if !pass {
          SelectPrefix(ops, j + 1, i);
          assert ops[j] in Select(ops[..j + 1], i);
          return None;
        }
        chosen := chosen + [ops[j]];
      }
    }
    assert ops[..|ops|] == ops;
    return Some(chosen);
  }

  lemma {:induction false} SelectPrefix(ops: seq<ExpelOperation>, j: nat, i: nat)
    requires j <= |ops|
    ensures forall op :: op in Select(ops[..j], i) ==> op in Select(ops, i)
    decreases |ops| - j
  {
    if j < |ops| {
      SelectSnoc(ops[..j], ops[j], i);
      assert ops[..j + 1] == ops[..j] + [ops[j]];
      SelectPrefix(ops, j + 1, i);
    } else {
      assert ops[..j] == ops;
    }
  }

  /** `i` is the greatest mask of an expellable set. */
  ghost predicate Greatest(ops: seq<ExpelOperation>, suf: Suffrage, i: int) {
    && 0 < i <= FullMask(|ops|)
    && Expellable(Select(ops, i), suf)
    && forall m :: i < m <= FullMask(|ops|) ==> !Expellable(Select(ops, m), suf)
  }

  /** The body of the mask loop: the operations of mask `i` if they can be expelled together. */
  method TryMask(ops: seq<ExpelOperation>, i: nat, suf: Suffrage) returns (r: Option<seq<ExpelOperation>>)
    requires 0 < i < Pow2(|ops|)
    ensures r.Some? <==> Expellable(Select(ops, i), suf)
    ensures r.Some? ==> multiset(r.value) == multiset(Select(ops, i)) && SortedBy(LessSigned, r.value)
  {
    var n := OnesCount(i);
    var chosen := Gather(ops, i, n, suf);
    if chosen == None {
      return None;
    }
    var sorted := Sort(LessSigned, chosen.value);
    ExpellableOfPermutation(sorted, chosen.value, suf);
    SameElements(sorted, chosen.value);
    var enough := EnoughOutside(sorted, suf);
    return if enough then Some(sorted) else None;
  }

  /** The mask loop, from the greatest mask down to 1. */
  method FindExpelCombinations(ops: seq<ExpelOperation>, suf: Suffrage)
    returns (expelnodes: seq<string>, found: seq<ExpelOperation>, ghost mask: nat)
    ensures found == [] ==> forall m :: 0 < m <= FullMask(|ops|) ==> !Expellable(Select(ops, m), suf)
    ensures found != [] ==> Greatest(ops, suf, mask) && multiset(found) == multiset(Select(ops, mask))
    ensures |ops| < 64 ==> (found == [] <==> NothingExpellable(ops, suf))
    ensures expelnodes == ExpelNodes(found)
    ensures SortedBy(LessSigned, found)
  {
    var i := FullMask(|ops|);
    mask := 0;
    while i > 0
      invariant i <= FullMask(|ops|)
      invariant forall m :: i < m <= FullMask(|ops|) && m > 0 ==> !Expellable(Select(ops, m), suf)
      decreases i
    {
      var chosen := TryMask(ops, i, suf);
      if chosen.Some? {
        SelectSome(ops, i);
        SameElements(chosen.value, Select(ops, i));
        if |ops| < 64 {
          SearchIsComplete(ops, suf);
        }
        return ExpelNodes(chosen.value), chosen.value, i;
      }
      i := i - 1;
    }
    if |ops| < 64 {
      SearchIsComplete(ops, suf);
    }
    return [], [], 0;
  }

  lemma {:induction false} SelectSome(ops: seq<ExpelOperation>, i: nat)
    requires 0 < i < Pow2(|ops|)
    ensures Select(ops, i) != []
  {
    if i % 2 == 0 {
      SelectSome(ops[1..], i / 2);
    }
  }

  // ---------------------------------------------------------------- soundness and completeness

  /** Up to 63 operations the masks are exactly the non-empty subsets, each once. */
  lemma MasksAreSubsets(ops: seq<ExpelOperation>, flags: seq<bool>)
    requires |flags| == |ops| < 64 && true in flags
    ensures exists m :: 0 < m <= FullMask(|ops|) && FlagsOf(m, |ops|) == flags && Select(ops, m) == Sub(ops, flags)
    ensures forall m, m' | 0 < m <= FullMask(|ops|) && 0 < m' <= FullMask(|ops|) ::
              FlagsOf(m, |ops|) == FlagsOf(m', |ops|) ==> m == m'
  {
    FlagsOfMask(flags);
    SelectIsSub(ops, flags);
    EmptyMask(flags);
    assert 0 < MaskOf(flags) <= FullMask(|ops|);
    forall m, m' | 0 < m <= FullMask(|ops|) && 0 < m' <= FullMask(|ops|) && FlagsOf(m, |ops|) == FlagsOf(m', |ops|)
      ensures m == m'
    {
      MaskOfFlags(m, |ops|);
      MaskOfFlags(m', |ops|);
    }
  }

  /** No non-empty subset of the operations can be expelled. */
  ghost predicate NothingExpellable(ops: seq<ExpelOperation>, suf: Suffrage) {
    forall flags: seq<bool> :: |flags| == |ops| && true in flags ==> !Expellable(Sub(ops, flags), suf)
  }

  ghost predicate SomeMask(ops: seq<ExpelOperation>, suf: Suffrage) {
    exists m: nat :: 0 < m <= FullMask(|ops|) && Expellable(Select(ops, m), suf)
  }

  /** Looking at the masks is looking at the non-empty subsets. */
  lemma SearchIsComplete(ops: seq<ExpelOperation>, suf: Suffrage)
    requires |ops| < 64
    ensures SomeMask(ops, suf) <==> !NothingExpellable(ops, suf)
  {
    if m: nat :| 0 < m <= FullMask(|ops|) && Expellable(Select(ops, m), suf) {
      var flags := FlagsOf(m, |ops|);
      MaskOfFlags(m, |ops|);
      SelectIsSub(ops, flags);
      EmptyMask(flags);
    }
    if flags :| |flags| == |ops| && true in flags && Expellable(Sub(ops, flags), suf) {
      MasksAreSubsets(ops, flags);
    }
  }

  /** With 64 operations or more there is no mask at all, and an expellable set is missed. */
  lemma ManyOperationsMissed(length: nat) returns (ops: seq<ExpelOperation>, suf: Suffrage)
    requires length >= 64
    ensures |ops| == length && suf.Valid()
    ensures forall i, j :: 0 <= i < j < |ops| ==> ops[i].start != ops[j].start
    ensures forall op :: op in ops ==> suf.Exists(op.node) && 1 <= op.start <= length <= op.end
    ensures !SomeMask(ops, suf) && !NothingExpellable(ops, suf)
  {
    suf := FourNodes();
    ops := seq(length, i => OnTheFourth(i + 1, length));
    ThreeExpelTheFourth(suf, ops[0]);
    FirstAlone(ops, suf);
  }

  lemma FirstAlone(ops: seq<ExpelOperation>, suf: Suffrage)
    requires ops != [] && Expellable([ops[0]], suf)
    ensures !NothingExpellable(ops, suf)
  {
    var flags := [true] + seq(|ops| - 1, _ => false);
    SubNone(ops[1..], flags[1..]);
    assert Sub(ops, flags) == [ops[0]] + Sub(ops[1..], flags[1..]) == [ops[0]];
  }

  /** A suffrage of four nodes. */
  predicate OfFour(suf: Suffrage) {
    suf.m.Keys == {"a", "b", "c", "d"} && suf.Len() == 4
  }

  lemma FourNodes() returns (suf: Suffrage)
    ensures suf.Valid() && OfFour(suf) && forall a :: a in suf.m ==> suf.m[a].publickey == ""
  {
    var nodes := [Node("a", ""), Node("b", ""), Node("c", ""), Node("d", "")];
    assert Addresses(nodes) == ["a", "b", "c", "d"];
    assert ToSet(["a", "b", "c", "d"]) == {"a", "b", "c", "d"};
    suf := SuffrageOf(nodes).value;
    forall a | a in suf.m
      ensures suf.m[a].publickey == ""
    {
      AddressMapEntry(nodes, a);
    }
  }

  function SignedBy(nodes: seq<string>): (r: seq<NodeSign>)
    ensures |r| == |nodes| && Signers(r) == nodes
    ensures forall s :: s in r ==> s.node in nodes
  {
    seq(|nodes|, i requires 0 <= i < |nodes| => NodeSign(nodes[i], ""))
  }

  /** All of `signers` expel each of `nodes`. */
  function ExpelAll(nodes: seq<string>, signers: seq<string>, height: int): (r: seq<ExpelOperation>)
    ensures |r| == |nodes| && ExpelNodes(r) == nodes
    ensures forall op :: op in r ==> op.node in nodes && op.end == height && op.signs == SignedBy(signers)
  {
    seq(|nodes|, i requires 0 <= i < |nodes| => ExpelOperation(nodes[i], height, height, SignedBy(signers)))
  }

  /** Three of four nodes expel the fourth. */
  function OnTheFourth(start: int, end: int): (op: ExpelOperation)
    ensures op.node == "d" && op.start == start && op.end == end && |op.signs| == 3
    ensures Signers(op.signs) == ["a", "b", "c"] && forall s :: s in op.signs ==> s.node in ["a", "b", "c"]
  {
    ExpelOperation("d", start, end, SignedBy(["a", "b", "c"]))
  }

  lemma ThreeExpelTheFourth(suf: Suffrage, op: ExpelOperation)
    requires OfFour(suf) && op.node == "d" && |op.signs| == 3
    requires forall s :: s in op.signs ==> s.node in ["a", "b", "c"]
    ensures Expellable([op], suf)
  {
    OneOfFourThreshold();
    assert ExpelNodes([op]) == ["d"];
    SignedByOthers([op], suf);
  }

  lemma {:induction false} SubNone(ops: seq<ExpelOperation>, flags: seq<bool>)
    requires |flags| == |ops| && true !in flags
    ensures Sub(ops, flags) == []
  {
    if ops != [] {
      SubNone(ops[1..], flags[1..]);
    }
  }

  lemma {:induction false} SignsOutsideNone(signs: seq<NodeSign>, out: set<string>)
    requires forall s :: s in signs ==> s.node !in out
    ensures SignsOutside(signs, out) == signs
  {
    if signs != [] {
      SignsOutsideNone(signs[1..], out);
    }
  }

  lemma OneOfFourThreshold()
    ensures ExpelThreshold(DEFAULT_THRESHOLD, 4, 1) == 3
  {
    VotesRoundUp(DEFAULT_THRESHOLD, 4);
    assert Votes(DEFAULT_THRESHOLD, 4) == 3;
  }

  lemma OwnNode(sel: seq<ExpelOperation>, op: ExpelOperation)
    requires op in sel
    ensures op.node in ExpelNodes(sel)
  {
    var i :| 0 <= i < |sel| && sel[i] == op;
    assert ExpelNodes(sel)[i] == op.node;
  }

  /** If none of the expelled nodes signed, all signs count. */
  lemma SignedByOthers(sel: seq<ExpelOperation>, suf: Suffrage)
    requires forall op, s :: op in sel && s in op.signs ==> s.node !in ExpelNodes(sel) && suf.Exists(s.node)
    ensures forall op :: op in sel ==> op.NodeSigns() == op.signs == SignsOutside(op.signs, ToSet(ExpelNodes(sel)))
    ensures Expellable(sel, suf) <==>
            forall op :: op in sel ==> |op.signs| >= ExpelThreshold(DEFAULT_THRESHOLD, suf.Len(), |sel|)
  {
    var out := ToSet(ExpelNodes(sel));
    var th := ExpelThreshold(DEFAULT_THRESHOLD, suf.Len(), |sel|);
    forall op | op in sel
      ensures op.NodeSigns() == op.signs == SignsOutside(op.signs, out)
      ensures SignedEnough(op, out, th, suf) <==> |op.signs| >= th
    {
      OwnNode(sel, op);
      SignsOutsideNone(op.signs, {op.node});
      SignsOutsideNone(op.signs, out);
    }
  }

  /** The search finds a set whenever there is one, exactly if there are fewer than 64 operations. */
  lemma SearchCompleteIff(length: nat)
    ensures length < 64 <==>
            forall ops: seq<ExpelOperation>, suf: Suffrage ::
              |ops| == length && suf.Valid() && !NothingExpellable(ops, suf) ==> SomeMask(ops, suf)
  {
    if length < 64 {
      forall ops: seq<ExpelOperation>, suf: Suffrage | |ops| == length && !NothingExpellable(ops, suf)
        ensures SomeMask(ops, suf)
      {
        SearchIsComplete(ops, suf);
      }
    } else {
      var ops, suf := ManyOperationsMissed(length);
      assert !SomeMask(ops, suf);
    }
  }

  // ---------------------------------------------------------------- the order of the operations does not matter

  ghost predicate NothingExpellableAmong(ops: multiset<ExpelOperation>, suf: Suffrage) {
    forall sel: seq<ExpelOperation> :: sel != [] && multiset(sel) <= ops ==> !Expellable(sel, suf)
  }

  lemma {:induction false} SubIsAmong(ops: seq<ExpelOperation>, flags: seq<bool>)
    requires |flags| == |ops|
    ensures multiset(Sub(ops, flags)) <= multiset(ops)
    ensures true in flags ==> Sub(ops, flags) != []
  {
    if ops != [] {
      SubIsAmong(ops[1..], flags[1..]);
      assert ops == [ops[0]] + ops[1..];
      assert flags == [flags[0]] + flags[1..];
    }
  }

  lemma WithoutFirst(ops: seq<ExpelOperation>, m: multiset<ExpelOperation>)
    requires ops != [] && m <= multiset(ops)
    ensures (if ops[0] in m then m - multiset{ops[0]} else m) <= multiset(ops[1..])
  {
    assert ops == [ops[0]] + ops[1..];
  }

  lemma SubOfFirst(ops: seq<ExpelOperation>, flag: bool, rest: seq<bool>)
    requires ops != [] && |rest| == |ops| - 1
    ensures multiset(Sub(ops, [flag] + rest)) ==
            (if flag then multiset{ops[0]} else multiset{}) + multiset(Sub(ops[1..], rest))
  {
    assert ([flag] + rest)[1..] == rest;
  }

  lemma {:induction false} FlagsFor(ops: seq<ExpelOperation>, m: multiset<ExpelOperation>) returns (flags: seq<bool>)
    requires m <= multiset(ops)
    ensures |flags| == |ops| && multiset(Sub(ops, flags)) == m
  {
    if ops == [] {
      flags := [];
    } else {
      var first := ops[0];
      WithoutFirst(ops, m);
      var rest := FlagsFor(ops[1..], if first in m then m - multiset{first} else m);
      flags := [first in m] + rest;
      SubOfFirst(ops, first in m, rest);
    }
  }

  /** No set of operations can be expelled, in whatever order they are. */
  lemma NothingExpellableIff(ops: seq<ExpelOperation>, suf: Suffrage)
    ensures NothingExpellable(ops, suf) <==> NothingExpellableAmong(multiset(ops), suf)
  {
    if sel: seq<ExpelOperation> :| sel != [] && multiset(sel) <= multiset(ops) && Expellable(sel, suf) {
      var flags := FlagsFor(ops, multiset(sel));
      ExpellableOfPermutation(sel, Sub(ops, flags), suf);
      assert |multiset(sel)| == |sel| && |multiset(Sub(ops, flags))| == |Sub(ops, flags)|;
      if true !in flags {
        SubNone(ops, flags);
      }
    }
    if flags :| |flags| == |ops| && true in flags && Expellable(Sub(ops, flags), suf) {
      SubIsAmong(ops, flags);
    }
  }
}
