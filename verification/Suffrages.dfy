/** Suffrages, and suffrages without expelled nodes (isaac/suffrage.go, isaac/suffrage_operation.go). */
module Suffrages {
  import opened Wrappers
  import opened Sequences
  import opened Thresholds

  datatype Node = Node(address: string, publickey: string)

  datatype NodeSign = NodeSign(node: string, signer: string)

  datatype Error =
    | EmptySuffrage | NilNode | DuplicatedNode
    | InsufficientSigns | ExpelExpired | UnknownExpelNode | UnknownSigner | DuplicatedSigns

  function Addresses(nodes: seq<Node>): (r: seq<string>)
    ensures |r| == |nodes|
  {
    seq(|nodes|, i requires 0 <= i < |nodes| => nodes[i].address)
  }

  function AddressMap(nodes: seq<Node>): (m: map<string, Node>)
    ensures m.Keys == ToSet(Addresses(nodes))
  {
    if nodes == [] then map[]
    else
      var init, last := nodes[..|nodes| - 1], nodes[|nodes| - 1];
      assert Addresses(nodes) == Addresses(init) + [last.address];
      AddressMap(init)[last.address := last]
  }

  lemma {:induction false} AddressMapEntry(nodes: seq<Node>, a: string)
    requires a in AddressMap(nodes)
    ensures AddressMap(nodes)[a] in nodes && AddressMap(nodes)[a].address == a
  {
    var init, last := nodes[..|nodes| - 1], nodes[|nodes| - 1];
    if a != last.address {
      AddressMapEntry(init, a);
    }
  }

  // ---------------------------------------------------------------- suffrages

  datatype Suffrage = Suffrage(m: map<string, Node>, ns: seq<Node>) {

    predicate Exists(node: string) {
      node in m
    }

    predicate ExistsPublickey(node: string, pub: string) {
      node in m && m[node].publickey == pub
    }

    function Len(): nat {
      |ns|
    }

    function Members(): set<string> {
      ToSet(Addresses(ns))
    }

    /** What every suffrage made by NewSuffrage is like. */
    ghost predicate Valid() {
      && ns != []
      && Distinct(Addresses(ns))
      && m == AddressMap(ns)
    }
  }

  function SuffrageOf(nodes: seq<Node>): (r: Result<Suffrage, Error>)
    ensures r.Ok? <==> nodes != [] && Distinct(Addresses(nodes))
    ensures r.Ok? ==> r.value.Valid() && r.value.ns == nodes
  {
    if nodes == [] then Err(EmptySuffrage)
    else if !Distinct(Addresses(nodes)) then Err(DuplicatedNode)
    else Ok(Suffrage(AddressMap(nodes), nodes))
  }

  function Values(nodes: seq<Option<Node>>): (r: seq<Node>)
    requires None !in nodes
    ensures |r| == |nodes|
  {
    seq(|nodes|, i requires 0 <= i < |nodes| => nodes[i].value)
  }

  /** Are there two equal keys (util/slice.go)? */
  method IsDuplicatedSlice(keys: seq<string>) returns (duplicated: bool)
    ensures duplicated <==> !Distinct(keys)
  {
    var m: set<string> := {};
    for i := 0 to |keys|
      invariant forall k :: k in m <==> k in keys[..i]
      invariant Distinct(keys[..i])
    {
      if keys[i] in m {
        var j :| 0 <= j < i && keys[j] == keys[i];
        return true;
      }
      m := m + {keys[i]};
    }
    assert keys[..|keys|] == keys;
    return false;
  }

  method NewSuffrage(nodes: seq<Option<Node>>) returns (r: Result<Suffrage, Error>)
    ensures nodes == [] ==> r == Err(EmptySuffrage)
    ensures None in nodes ==> r == Err(NilNode)
    ensures None !in nodes ==> r == SuffrageOf(Values(nodes))
  {
    if |nodes| < 1 {
      return Err(EmptySuffrage);
    }
    var m: map<string, Node>, ns, keys := map[], [], [];
    for i := 0 to |nodes|
      invariant None !in nodes[..i]
      invariant ns == Values(nodes[..i])
      invariant m == AddressMap(ns)
      invariant keys == Addresses(ns)
    {
      if nodes[i] == None {
        return Err(NilNode);
      }
      var n := nodes[i].value;
      AppendNode(nodes, i, ns);
      m := m[n.address := n];
      ns := ns + [n];
      keys := keys + [n.address];
    }
    assert nodes[..|nodes|] == nodes;
    var duplicated := IsDuplicatedSlice(keys);
    if duplicated {
      return Err(DuplicatedNode);
    }
    return Ok(Suffrage(m, ns));
  }

  /** One step of the loop in NewSuffrage. */
  lemma AppendNode(nodes: seq<Option<Node>>, i: nat, ns: seq<Node>)
    requires i < |nodes| && None !in nodes[..i] && nodes[i].Some?
    requires ns == Values(nodes[..i])
    ensures None !in nodes[..i + 1]
    ensures ns + [nodes[i].value] == Values(nodes[..i + 1])
    ensures AddressMap(ns + [nodes[i].value]) == AddressMap(ns)[nodes[i].value.address := nodes[i].value]
    ensures Addresses(ns + [nodes[i].value]) == Addresses(ns) + [nodes[i].value.address]
  {
    assert nodes[..i + 1] == nodes[..i] + [nodes[i]];
    assert (ns + [nodes[i].value])[..i] == ns;
  }

  // ---------------------------------------------------------------- expel operations

  /** The signs of nodes that are not in `out`. */
  function SignsOutside(signs: seq<NodeSign>, out: set<string>): (r: seq<NodeSign>)
    ensures |r| <= |signs|
    ensures forall s :: s in r <==> s in signs && s.node !in out
  {
    if signs == [] then []
    else if signs[0].node in out then SignsOutside(signs[1..], out)
    else [signs[0]] + SignsOutside(signs[1..], out)
  }

  /** An operation that expels `node`, valid from height `start` up to `end`. */
  datatype ExpelOperation = ExpelOperation(node: string, start: int, end: int, signs: seq<NodeSign>) {

    /** The expelled node's own sign does not count. */
    function NodeSigns(): seq<NodeSign> {
      SignsOutside(signs, {node})
    }
  }

  function Signers(signs: seq<NodeSign>): (r: seq<string>)
    ensures |r| == |signs|
  {
    seq(|signs|, i requires 0 <= i < |signs| => signs[i].node)
  }

  function ExpelNodes(expels: seq<ExpelOperation>): (r: seq<string>)
    ensures |r| == |expels|
  {
    seq(|expels|, i requires 0 <= i < |expels| => expels[i].node)
  }

  function IsValidExpelWithSuffrage(height: int, expel: ExpelOperation, suf: Suffrage): (e: Option<Error>) {
    if height > expel.end then Some(ExpelExpired)
    else if !suf.Exists(expel.node) then Some(UnknownExpelNode)
    else if exists s :: s in expel.NodeSigns() && !suf.ExistsPublickey(s.node, s.signer) then Some(UnknownSigner)
    else None
  }

  /** Exactly what is known: an expel of a member, not expired, that only members signed, with their own keys. */
  lemma KnownIff(height: int, expel: ExpelOperation, suf: Suffrage)
    ensures IsValidExpelWithSuffrage(height, expel, suf) == None <==>
              && height <= expel.end && suf.Exists(expel.node)
              && forall s :: s in expel.signs && s.node != expel.node ==> suf.ExistsPublickey(s.node, s.signer)
  {
  }

  // ---------------------------------------------------------------- suffrages without expelled nodes

  /** The number of signs every one of `k` expels needs in a suffrage of `n` nodes. */
  function ExpelThreshold(t: Percent, n: nat, k: nat): nat {
    var th := Votes(t, n);
    if k > UintSub(n, th) then UintSub(n, k) else th
  }

  function Remaining(nodes: seq<Node>, out: set<string>): seq<Node>
  {
    if nodes == [] then []
    else if nodes[0].address in out then Remaining(nodes[1..], out)
    else [nodes[0]] + Remaining(nodes[1..], out)
  }

  function SuffrageWithExpels(suf: Suffrage, threshold: Percent, expels: seq<ExpelOperation>): Result<Suffrage, Error> {
    if |expels| < 1 then Ok(suf)
    else if exists op :: op in expels && |op.NodeSigns()| < ExpelThreshold(threshold, suf.Len(), |expels|) then
      Err(InsufficientSigns)
    else
      SuffrageOf(Remaining(suf.ns, ToSet(ExpelNodes(expels))))
  }

  method NewSuffrageWithExpels(suf: Suffrage, threshold: Percent, expels: seq<ExpelOperation>)
    returns (r: Result<Suffrage, Error>)
    ensures r == SuffrageWithExpels(suf, threshold, expels)
  {
    if |expels| < 1 {
      return Ok(suf);
    }
    var th := Votes(threshold, suf.Len());
    var n := |expels|;
    if n > UintSub(suf.Len(), th) {
      th := UintSub(suf.Len(), n);
    }
    for i := 0 to |expels|
      invariant forall j :: 0 <= j < i ==> |expels[j].NodeSigns()| >= th
    {
      if |expels[i].NodeSigns()| < th {
        assert expels[i] in expels;
        return Err(InsufficientSigns);
      }
    }
    var filtered := Filter2Slices(suf.ns, expels);
    r := NewSuffrage(seq(|filtered|, i requires 0 <= i < |filtered| => Some(filtered[i])));
    assert Values(seq(|filtered|, i requires 0 <= i < |filtered| => Some(filtered[i]))) == filtered;
  }

  /** The nodes that none of the operations expels (util/slice.go). */
  method Filter2Slices(nodes: seq<Node>, expels: seq<ExpelOperation>) returns (r: seq<Node>)
    ensures r == Remaining(nodes, ToSet(ExpelNodes(expels)))
  {
    r := [];
    for i := 0 to |nodes|
      invariant r == Remaining(nodes[..i], ToSet(ExpelNodes(expels)))
    {
      var found := false;
      for j := 0 to |expels|
        invariant !found
        invariant forall l :: 0 <= l < j ==> expels[l].node != nodes[i].address
      {
        if nodes[i].address == expels[j].node {
          assert ExpelNodes(expels)[j] == nodes[i].address;
          found := true;
          break;
        }
      }
      RemainingSnoc(nodes[..i], nodes[i], ToSet(ExpelNodes(expels)));
      assert nodes[..i + 1] == nodes[..i] + [nodes[i]];
      if !found {
        r := r + [nodes[i]];
      }
    }
    assert nodes[..|nodes|] == nodes;
  }

  /** Nobody else goes, and nobody comes. */
  lemma {:induction false} RemainingAre(nodes: seq<Node>, out: set<string>)
    ensures forall x :: x in Remaining(nodes, out) <==> x in nodes && x.address !in out
  {
    if nodes != [] {
      RemainingAre(nodes[1..], out);
    }
  }

  lemma {:induction false} RemainingSnoc(nodes: seq<Node>, last: Node, out: set<string>)
    ensures Remaining(nodes + [last], out) ==
            Remaining(nodes, out) + (if last.address in out then [] else [last])
  {
    if nodes != [] {
      RemainingSnoc(nodes[1..], last, out);
      assert (nodes + [last])[1..] == nodes[1..] + [last];
    }
  }

  /**
   * More operations than members wrap the number of signs around: it is then larger than any
   * number of signs there is.
   */
  lemma TooManyExpels(suf: Suffrage, t: Percent, expels: seq<ExpelOperation>)
    requires t <= MAX_THRESHOLD && suf.Len() < |expels| < UINT64_LIMIT
    requires forall op :: op in expels ==> |op.NodeSigns()| < UINT64_LIMIT - |expels|
    ensures ExpelThreshold(t, suf.Len(), |expels|) == UINT64_LIMIT + suf.Len() - |expels|
    ensures SuffrageWithExpels(suf, t, expels) == Err(InsufficientSigns)
  {
    VotesAtMost(t, suf.Len());
    UintSubWraps(suf.Len(), |expels|);
    assert expels[0] in expels;
  }

  // ---------------------------------------------------------------- sizes

  lemma InAddresses(nodes: seq<Node>, a: string)
    ensures a in ToSet(Addresses(nodes)) <==> exists x :: x in nodes && x.address == a
  {
    if a in Addresses(nodes) {
      var i :| 0 <= i < |nodes| && Addresses(nodes)[i] == a;
      assert nodes[i] in nodes;
    }
    if x :| x in nodes && x.address == a {
      var i :| 0 <= i < |nodes| && nodes[i] == x;
      assert Addresses(nodes)[i] == a;
    }
  }

  /** Removing nodes leaves the other addresses. */
  lemma RemainingMembers(nodes: seq<Node>, out: set<string>)
    ensures ToSet(Addresses(Remaining(nodes, out))) == ToSet(Addresses(nodes)) - out
  {
    RemainingAre(nodes, out);
    forall a
      ensures a in ToSet(Addresses(Remaining(nodes, out))) <==> a in ToSet(Addresses(nodes)) - out
    {
      InAddresses(nodes, a);
      InAddresses(Remaining(nodes, out), a);
    }
  }

  lemma {:induction false} RemainingDistinct(nodes: seq<Node>, out: set<string>)
    requires Distinct(Addresses(nodes))
    ensures Distinct(Addresses(Remaining(nodes, out)))
  {
    if nodes != [] {
      var rest, a := nodes[1..], nodes[0].address;
      assert Addresses(rest) == Addresses(nodes)[1..];
      RemainingDistinct(rest, out);
      if a !in out {
        var kept := Remaining(rest, out);
        assert Addresses([nodes[0]] + kept) == [a] + Addresses(kept);
        RemainingMembers(rest, out);
        assert Addresses(nodes)[0] == a && a !in Addresses(rest);
        assert a !in ToSet(Addresses(kept));
      }
    }
  }

  lemma RemainingSize(nodes: seq<Node>, out: set<string>)
    requires Distinct(Addresses(nodes))
    requires out <= ToSet(Addresses(nodes))
    ensures |Remaining(nodes, out)| == |nodes| - |out|
  {
    RemainingDistinct(nodes, out);
    RemainingMembers(nodes, out);
    DistinctCard(Addresses(nodes));
    DistinctCard(Addresses(Remaining(nodes, out)));
    assert |ToSet(Addresses(nodes)) - out| == |ToSet(Addresses(nodes))| - |out|;
  }

  /**
   * Expelling members is accepted exactly when somebody is left and every operation has enough
   * signs; what is left are precisely the other members. Operations on one node all count.
   */
  lemma ExpelsAccepted(suf: Suffrage, threshold: Percent, expels: seq<ExpelOperation>)
    requires suf.Valid() && expels != [] && ToSet(ExpelNodes(expels)) <= suf.Members()
    ensures var r, out := SuffrageWithExpels(suf, threshold, expels), ToSet(ExpelNodes(expels));
      && (r.Ok? <==> && out != suf.Members()
                     && forall op :: op in expels ==>
                          |op.NodeSigns()| >= ExpelThreshold(threshold, suf.Len(), |expels|))
      && (r.Ok? ==> && r.value.Valid()
                    && r.value.Members() == suf.Members() - out
                    && r.value.Len() == suf.Len() - |out|)
  {
    var out := ToSet(ExpelNodes(expels));
    RemainingMembers(suf.ns, out);
    RemainingDistinct(suf.ns, out);
    RemainingSize(suf.ns, out);
    var left := Remaining(suf.ns, out);
    DistinctCard(Addresses(left));
    assert left == [] <==> ToSet(Addresses(left)) == {};
  }

  /** Distinct members are all members exactly when they are as many. */
  lemma AllOrFewer(suf: Suffrage, nodes: seq<string>)
    requires suf.Valid() && Distinct(nodes) && ToSet(nodes) <= suf.Members()
    ensures |nodes| == |ToSet(nodes)| <= suf.Len()
    ensures |nodes| < suf.Len() <==> ToSet(nodes) != suf.Members()
  {
    DistinctCard(nodes);
    DistinctCard(Addresses(suf.ns));
    SubsetCard(ToSet(nodes), suf.Members());
    if |nodes| == suf.Len() {
      assert |suf.Members() - ToSet(nodes)| == 0;
    }
  }
}
