/** The window of last suffrage proofs against the whole history (isaac/last_consensus_nodes_watcher.go). */
module SuffrageWindow {
  import opened Wrappers
  import opened Points

  /** A suffrage proof: the height of its block and the number of its suffrage. */
  datatype Proof = Proof(height: int, suffrageHeight: int)

  /** The state of the candidates: the height it is from, and its hash. */
  datatype Candidates = Candidates(height: int, hash: string)

  /** What the local source answers. */
  datatype Local =
    | Failed
    | NotFound(height: int)
    | Found(height: int, proof: Proof, candidates: Option<Candidates>)

  function Last(ps: seq<Proof>): Proof
    requires ps != []
  {
    ps[|ps| - 1]
  }

  // ---------------------------------------------------------------- the functions

  function Newer(ps: seq<Proof>, top: int): (r: seq<Proof>)
    ensures |r| <= |ps|
  {
    if ps == [] then []
    else if ps[0].height > top then [ps[0]] + Newer(ps[1..], top)
    else Newer(ps[1..], top)
  }

  /** Older proofs go in front while they are the direct predecessors, up to three in all. */
  function Prepend(w: seq<Proof>, a: seq<Proof>): (r: seq<Proof>)
    requires w != []
    ensures r != [] && Last(r) == Last(w)
    decreases a
  {
    if |w| >= 3 || a == [] || w[0].suffrageHeight != Last(a).suffrageHeight + 1 then w
    else Prepend([Last(a)] + w, a[..|a| - 1])
  }

  function NewPart(a: seq<Proof>, b: seq<Proof>): seq<Proof> {
    if a == [] then b else Newer(b, Last(a).height)
  }

  function Trim(nb: seq<Proof>, a: seq<Proof>): seq<Proof>
    requires nb != []
  {
    if |nb| >= 3 then nb[|nb| - 3..] else Prepend(nb, a)
  }

  function CompareSpec(a: seq<Proof>, b: seq<Proof>): seq<Proof> {
    var nb := NewPart(a, b);
    if nb == [] then [] else Trim(nb, a)
  }

  function IsNewCandidates(a: Option<Candidates>, b: Option<Candidates>): bool {
    b.Some? && (a == None || b.value.height > a.value.height)
  }

  datatype State = State(lastheight: int, last: seq<Proof>, candidates: Option<Candidates>)

  function LoadSpec(s: State, local: Local): State
    requires !local.Failed?
  {
    var s1 :=
      if local.NotFound? then s
      else
        s.(last := if CompareSpec(s.last, [local.proof]) != [] then [local.proof] else s.last,
           candidates := if IsNewCandidates(s.candidates, local.candidates) then local.candidates else s.candidates);
    s1.(lastheight := Max(s.lastheight, local.height))
  }

  function UpdateSpec(s: State, local: Local, height: int, proofs: seq<Proof>, candidates: Option<Candidates>): State {
    if local.Failed? then s
    else
      var l := LoadSpec(s, local);
      var newl3 := CompareSpec(l.last, proofs);
      State(Max(l.lastheight, height),
            if newl3 != [] then newl3 else l.last,
            if IsNewCandidates(l.candidates, candidates) then candidates else l.candidates)
  }

  /** The newest proof of the window whose block is not after `height`. */
  function Scan(l3: seq<Proof>, height: int): Option<Proof> {
    if l3 == [] then None
    else if height >= Last(l3).height then Some(Last(l3))
    else Scan(l3[..|l3| - 1], height)
  }

  function GetSuffrageSpec(s: State, height: int): Option<Proof> {
    if s.lastheight <= NIL_HEIGHT || height > s.lastheight then None
    else if s.last == [] then None
    else if height == s.lastheight then Some(Last(s.last))
    else Scan(s.last, height)
  }

  // ---------------------------------------------------------------- the watcher

  class LastConsensusNodesWatcher {
    var lastheight: int
    var last: seq<Proof>
    var lastcandidates: Option<Candidates>

    function Abs(): State
      reads this
    {
      State(lastheight, last, lastcandidates)
    }

    constructor (local: Local)
      requires !local.Failed?
      ensures Abs() == if local.Found? then State(local.height, [local.proof], local.candidates)
                       else State(NIL_HEIGHT, [], None)
    {
      lastheight, last, lastcandidates := NIL_HEIGHT, [], None;
      if local.Found? {
        lastheight, last, lastcandidates := local.height, [local.proof], local.candidates;
      }
    }

    static method FilterNewer(ps: seq<Proof>, top: int) returns (r: seq<Proof>)
      ensures r == Newer(ps, top)
    {
      r := [];
      for i := 0 to |ps|
        invariant r + Newer(ps[i..], top) == Newer(ps, top)
      {
        if ps[i].height > top {
          r := r + [ps[i]];
        }
        assert ps[i..][0] == ps[i] && ps[i..][1..] == ps[i + 1..];
      }
    }

    static method CompareProofs(a: seq<Proof>, b: seq<Proof>) returns (newl3: seq<Proof>)
      ensures newl3 == CompareSpec(a, b)
    {
      if |b| < 1 {
        return [];
      }
      var nb := b;
      if |a| > 0 {
        nb := FilterNewer(nb, Last(a).height);
      }
      if |nb| < 1 {
        return [];
      }
      if |nb| >= 3 {
        return nb[|nb| - 3..];
      }
      newl3 := nb;
      assert a[..|a|] == a;
      var i := |a| - 1;
      while i >= 0
        invariant -1 <= i < |a|
        invariant newl3 != [] && Prepend(newl3, a[..i + 1]) == Prepend(nb, a)
        invariant |newl3| < 3
        decreases i
      {
        var j := a[i];
        assert Last(a[..i + 1]) == j && a[..i + 1][..i] == a[..i];
        if newl3[0].suffrageHeight == j.suffrageHeight + 1 {
          newl3 := [j] + newl3;
          if |newl3| == 3 {
            return;
          }
        } else {
          return;
        }
        i := i - 1;
      }
    }

    method LoadLast(current: int, local: Local)
      returns (height: int, proofs: seq<Proof>, candidates: Option<Candidates>)
      requires !local.Failed? && current == lastheight
      ensures State(height, proofs, candidates) == LoadSpec(Abs(), local)
    {
      height, proofs, candidates := current, last, lastcandidates;
      if local.Found? {
        var n := CompareProofs(proofs, [local.proof]);
        if |n| > 0 {
          proofs := [local.proof];
        }
        if IsNewCandidates(candidates, local.candidates) {
          candidates := local.candidates;
        }
      }
      if local.height > height {
        height := local.height;
      }
    }

    method Update(local: Local, height: int, proofs: seq<Proof>, candidates: Option<Candidates>)
      returns (lastproofs: seq<Proof>, lastheightUpdated: bool, nodesUpdated: bool)
      modifies this
      ensures Abs() == UpdateSpec(old(Abs()), local, height, proofs, candidates)
      ensures lastproofs == last
      ensures lastheightUpdated <==> !local.Failed? && height > Max(old(lastheight), local.height)
      ensures nodesUpdated <==> !local.Failed? && (CompareSpec(LoadSpec(old(Abs()), local).last, proofs) != []
                                || IsNewCandidates(LoadSpec(old(Abs()), local).candidates, candidates))
    {
      lastheightUpdated, nodesUpdated := false, false;
      if local.Failed? {
        return last, false, false;
      }
      var current := lastheight;
      var lheight, lproofs, lcandidates := LoadLast(current, local);
      var newl3 := CompareProofs(lproofs, proofs);
      if |newl3| > 0 {
        nodesUpdated := true;
        last := newl3;
      } else {
        last := lproofs;
      }
      if IsNewCandidates(lcandidates, candidates) {
        nodesUpdated := true;
        lastcandidates := candidates;
      } else {
        lastcandidates := lcandidates;
      }
      if height > lheight {
        lastheightUpdated := true;
        lastheight := height;
      } else if lheight > current {
        lastheight := lheight;
      }
      lastproofs := last;
    }

    method GetSuffrage(height: int) returns (proof: Option<Proof>)
      ensures proof == GetSuffrageSpec(Abs(), height)
    {
      if lastheight <= NIL_HEIGHT || height > lastheight {
        return None;
      }
      var l3 := last;
      if |l3| < 1 {
        return None;
      }
      if height == lastheight {
        return Some(l3[|l3| - 1]);
      }
      proof := None;
      assert l3[..|l3|] == l3;
      var i := |l3| - 1;
      while i >= 0
        invariant -1 <= i < |l3|
        invariant Scan(l3, height) == Scan(l3[..i + 1], height)
        decreases i
      {
        var j := l3[i];
        assert Last(l3[..i + 1]) == j && l3[..i + 1][..i] == l3[..i];
        if height >= j.height {
          return Some(j);
        }
        i := i - 1;
      }
    }
  }

  // ---------------------------------------------------------------- the whole history

  /** All proofs there are: numbered from 0, the first one at genesis, in blocks that follow each other. */
  ghost predicate History(hist: seq<Proof>) {
    && hist != []
    && hist[0].height == GENESIS_HEIGHT
    && (forall i :: 0 <= i < |hist| ==> hist[i].suffrageHeight == i)
    && forall i, j :: 0 <= i < j < |hist| ==> hist[i].height < hist[j].height
  }

  /** How many proofs there are up to a height. */
  function Known(hist: seq<Proof>, height: int): (n: nat)
    ensures n <= |hist|
  {
    if hist == [] then 0
    else if Last(hist).height <= height then |hist|
    else Known(hist[..|hist| - 1], height)
  }

  /** The proof in force at a height, looked up in the whole history. */
  function Lookup(hist: seq<Proof>, height: int): Option<Proof> {
    if Known(hist, height) == 0 then None else Some(hist[Known(hist, height) - 1])
  }

  lemma {:induction false} KnownIs(hist: seq<Proof>, height: int, n: nat)
    requires forall i, j :: 0 <= i < j < |hist| ==> hist[i].height < hist[j].height
    requires n <= |hist|
    requires n > 0 ==> hist[n - 1].height <= height
    requires n < |hist| ==> hist[n].height > height
    ensures Known(hist, height) == n
  {
    if n < |hist| {
      assert Last(hist).height > height;
      KnownIs(hist[..|hist| - 1], height, n);
    }
  }

  lemma {:induction false} KnownBounds(hist: seq<Proof>, height: int)
    requires forall i, j :: 0 <= i < j < |hist| ==> hist[i].height < hist[j].height
    ensures forall i :: 0 <= i < |hist| ==> (i < Known(hist, height) <==> hist[i].height <= height)
  {
    if hist != [] && Last(hist).height > height {
      KnownBounds(hist[..|hist| - 1], height);
    }
  }

  lemma KnownMonotone(hist: seq<Proof>, h1: int, h2: int)
    requires History(hist) && h1 <= h2
    ensures Known(hist, h1) <= Known(hist, h2)
  {
    KnownBounds(hist, h1);
    KnownBounds(hist, h2);
    var n := Known(hist, h1);
    if n > 0 {
      assert hist[n - 1].height <= h2;
    }
  }

  // ---------------------------------------------------------------- lists of proofs of a history

  predicate Of(hist: seq<Proof>, p: Proof) {
    0 <= p.suffrageHeight < |hist| && hist[p.suffrageHeight] == p
  }

  predicate AllOf(hist: seq<Proof>, ps: seq<Proof>) {
    forall p :: p in ps ==> Of(hist, p)
  }

  /** Every proof is the one before it again or the next one. */
  predicate GapFree(ps: seq<Proof>) {
    forall i :: 0 < i < |ps| ==> ps[i - 1].suffrageHeight <= ps[i].suffrageHeight <= ps[i - 1].suffrageHeight + 1
  }

  predicate Contiguous(ps: seq<Proof>) {
    forall i :: 0 < i < |ps| ==> ps[i].suffrageHeight == ps[i - 1].suffrageHeight + 1
  }

  lemma {:induction false} GapFreeAscends(hist: seq<Proof>, ps: seq<Proof>)
    requires History(hist) && AllOf(hist, ps) && GapFree(ps)
    ensures forall i, j :: 0 <= i <= j < |ps| ==>
              ps[i].suffrageHeight <= ps[j].suffrageHeight && ps[i].height <= ps[j].height
  {
    if ps != [] {
      var init := ps[..|ps| - 1];
      GapFreeAscends(hist, init);
      if init != [] {
        assert Of(hist, Last(init)) && Of(hist, Last(ps));
        assert ps[|ps| - 2] == Last(init);
      }
    }
  }

  /** What is newer in a gap-free list is its end. */
  lemma {:induction false} NewerIsSuffix(hist: seq<Proof>, ps: seq<Proof>, top: int) returns (k: nat)
    requires History(hist) && AllOf(hist, ps) && GapFree(ps)
    ensures k <= |ps| && Newer(ps, top) == ps[k..]
    ensures forall i :: 0 <= i < |ps| ==> (i < k <==> ps[i].height <= top)
    decreases ps
  {
    if ps == [] {
      k := 0;
    } else {
      GapFreeAscends(hist, ps);
      k := NewerIsSuffix(hist, ps[1..], top);
      if ps[0].height > top {
        assert forall i :: 0 < i < |ps| ==> ps[1..][i - 1] == ps[i];
        assert k == 0;
      } else {
        assert forall i :: 0 < i < |ps| ==> ps[1..][i - 1] == ps[i];
        k := k + 1;
      }
    }
  }

  lemma {:induction false} PrependKeeps(hist: seq<Proof>, w: seq<Proof>, a: seq<Proof>)
    requires w != [] && |w| <= 3 && AllOf(hist, w) && AllOf(hist, a) && GapFree(w)
    ensures var r := Prepend(w, a);
      && |r| <= 3 && AllOf(hist, r) && GapFree(r)
      && (Contiguous(w) ==> Contiguous(r))
    decreases a
  {
    if |w| < 3 && a != [] && w[0].suffrageHeight == Last(a).suffrageHeight + 1 {
      PrependKeeps(hist, [Last(a)] + w, a[..|a| - 1]);
    }
  }

  // ---------------------------------------------------------------- the invariant

  /** The window is a piece of the history that ends with the latest proof for `lastheight`. */
  ghost predicate Inv(hist: seq<Proof>, s: State) {
    && |s.last| <= 3
    && AllOf(hist, s.last)
    && GapFree(s.last)
    && (s.last == [] ==> s.lastheight <= GENESIS_HEIGHT)
    && (s.last != [] ==>
          s.lastheight >= GENESIS_HEIGHT && Last(s.last).suffrageHeight + 1 == Known(hist, s.lastheight))
  }

  /** The local source reports the latest proof at its height; without any it is at genesis at most. */
  ghost predicate LocalReports(hist: seq<Proof>, local: Local) {
    match local
    case Failed => true
    case NotFound(height) => height <= GENESIS_HEIGHT
    case Found(height, proof, _) => Lookup(hist, height) == Some(proof)
  }

  /**
   * A list of proofs ends with the latest one at its height. It may be empty only if the watcher
   * knows that one already.
   */
  ghost predicate Reports(hist: seq<Proof>, s: State, height: int, proofs: seq<Proof>) {
    && AllOf(hist, proofs)
    && GapFree(proofs)
    && (proofs != [] ==> Last(proofs).suffrageHeight + 1 == Known(hist, height))
    && (proofs == [] ==> Known(hist, height) <= if s.last == [] then 0 else Last(s.last).suffrageHeight + 1)
  }

  lemma NoProofBeforeGenesis(hist: seq<Proof>, height: int)
    requires History(hist)
    ensures Known(hist, height) > 0 <==> height >= GENESIS_HEIGHT
  {
    KnownBounds(hist, height);
  }

  /** Proofs are ordered in the same way by number and by block. */
  lemma SameOrder(hist: seq<Proof>, p: Proof, q: Proof)
    requires History(hist) && Of(hist, p) && Of(hist, q)
    ensures p.height > q.height <==> p.suffrageHeight > q.suffrageHeight
  {
  }

  /** Merging a list of reported proofs into the window. */
  function Merge(s: State, height: int, proofs: seq<Proof>): State {
    var newl3 := CompareSpec(s.last, proofs);
    s.(lastheight := Max(s.lastheight, height), last := if newl3 != [] then newl3 else s.last)
  }

  lemma SuffixKeeps(hist: seq<Proof>, ps: seq<Proof>, k: nat)
    requires AllOf(hist, ps) && GapFree(ps) && k < |ps|
    ensures AllOf(hist, ps[k..]) && GapFree(ps[k..]) && Last(ps[k..]) == Last(ps)
    ensures Contiguous(ps) ==> Contiguous(ps[k..])
  {
  }

  /** The proofs that are newer than the top of the window. */
  lemma NewPartKeeps(hist: seq<Proof>, a: seq<Proof>, b: seq<Proof>)
    requires History(hist) && AllOf(hist, b) && GapFree(b)
    ensures var nb := NewPart(a, b);
      && (nb != [] <==> b != [] && (a == [] || Last(b).height > Last(a).height))
      && AllOf(hist, nb) && GapFree(nb)
      && (nb != [] ==> Last(nb) == Last(b))
      && (Contiguous(b) ==> Contiguous(nb))
  {
    if a != [] {
      var k := NewerIsSuffix(hist, b, Last(a).height);
      if k < |b| {
        SuffixKeeps(hist, b, k);
      }
    }
  }

  /** At most three of the new ones, or the direct predecessors before them. */
  lemma TrimKeeps(hist: seq<Proof>, nb: seq<Proof>, a: seq<Proof>)
    requires nb != [] && AllOf(hist, a) && AllOf(hist, nb) && GapFree(nb)
    ensures var r := Trim(nb, a);
      && r != [] && Last(r) == Last(nb)
      && |r| <= 3 && AllOf(hist, r) && GapFree(r)
      && (Contiguous(nb) ==> Contiguous(r))
  {
    if |nb| >= 3 {
      SuffixKeeps(hist, nb, |nb| - 3);
    } else {
      PrependKeeps(hist, nb, a);
    }
  }

  lemma CompareKeeps(hist: seq<Proof>, a: seq<Proof>, b: seq<Proof>)
    requires History(hist) && AllOf(hist, a) && AllOf(hist, b) && GapFree(a) && GapFree(b)
    ensures var r := CompareSpec(a, b);
      && (r != [] <==> b != [] && (a == [] || Last(b).height > Last(a).height))
      && (r != [] ==> Last(r) == Last(b))
      && |r| <= 3 && AllOf(hist, r) && GapFree(r)
      && (Contiguous(b) ==> Contiguous(r))
  {
    NewPartKeeps(hist, a, b);
    if NewPart(a, b) != [] {
      TrimKeeps(hist, NewPart(a, b), a);
    }
  }

  lemma MergeKeepsInv(hist: seq<Proof>, s: State, height: int, proofs: seq<Proof>)
    requires History(hist) && Inv(hist, s) && Reports(hist, s, height, proofs)
    ensures Inv(hist, Merge(s, height, proofs))
  {
    CompareKeeps(hist, s.last, proofs);
    NoProofBeforeGenesis(hist, height);
    if height >= s.lastheight {
      KnownMonotone(hist, s.lastheight, height);
    } else {
      KnownMonotone(hist, height, s.lastheight);
    }
    if proofs != [] {
      assert Of(hist, Last(proofs));
      if s.last != [] {
        assert Of(hist, Last(s.last));
        SameOrder(hist, Last(proofs), Last(s.last));
      }
    }
  }

  lemma LoadKeepsInv(hist: seq<Proof>, s: State, local: Local)
    requires History(hist) && Inv(hist, s) && !local.Failed? && LocalReports(hist, local)
    ensures Inv(hist, LoadSpec(s, local))
    ensures s.last != [] ==> LoadSpec(s, local).last != []
                             && Last(LoadSpec(s, local).last).suffrageHeight >= Last(s.last).suffrageHeight
  {
    if local.Found? {
      var p := local.proof;
      KnownBounds(hist, local.height);
      assert Of(hist, p);
      CompareKeeps(hist, s.last, [p]);
      NoProofBeforeGenesis(hist, local.height);
      if local.height >= s.lastheight {
        KnownMonotone(hist, s.lastheight, local.height);
      } else {
        KnownMonotone(hist, local.height, s.lastheight);
      }
      if s.last != [] {
        assert Of(hist, Last(s.last));
        SameOrder(hist, p, Last(s.last));
      }
    }
  }

  /** After every update the window ends with the latest proof for its height. */
  lemma UpdateKeepsInv(hist: seq<Proof>, s: State, local: Local, height: int, proofs: seq<Proof>,
                       candidates: Option<Candidates>)
    requires History(hist) && Inv(hist, s) && LocalReports(hist, local) && Reports(hist, s, height, proofs)
    ensures Inv(hist, UpdateSpec(s, local, height, proofs, candidates))
  {
    if !local.Failed? {
      LoadKeepsInv(hist, s, local);
      MergeKeepsInv(hist, LoadSpec(s, local), height, proofs);
    }
  }

  /** From contiguous lists come contiguous windows: at most three proofs, one for every number. */
  lemma UpdateKeepsContiguous(hist: seq<Proof>, s: State, local: Local, height: int, proofs: seq<Proof>,
                              candidates: Option<Candidates>)
    requires History(hist) && Inv(hist, s) && LocalReports(hist, local) && Reports(hist, s, height, proofs)
    requires Contiguous(s.last) && Contiguous(proofs)
    ensures Contiguous(UpdateSpec(s, local, height, proofs, candidates).last)
  {
    if !local.Failed? {
      LoadKeepsInv(hist, s, local);
      CompareKeeps(hist, LoadSpec(s, local).last, proofs);
    }
  }

  lemma InitialInv(hist: seq<Proof>, local: Local)
    requires History(hist) && !local.Failed? && LocalReports(hist, local)
    ensures Inv(hist, if local.Found? then State(local.height, [local.proof], local.candidates)
                      else State(NIL_HEIGHT, [], None))
  {
    if local.Found? {
      KnownBounds(hist, local.height);
      NoProofBeforeGenesis(hist, local.height);
    }
  }

  // ---------------------------------------------------------------- answers

  lemma {:induction false} ScanFinds(hist: seq<Proof>, l3: seq<Proof>, height: int)
    requires History(hist) && AllOf(hist, l3) && GapFree(l3) && l3 != []
    requires Last(l3).suffrageHeight + 1 >= Known(hist, height)
    ensures Scan(l3, height).Some? <==> l3[0].height <= height
    ensures Scan(l3, height).Some? ==> Scan(l3, height) == Lookup(hist, height)
    decreases l3
  {
    var p := Last(l3);
    assert Of(hist, p);
    KnownBounds(hist, height);
    if height >= p.height {
      KnownIs(hist, height, p.suffrageHeight + 1);
      GapFreeAscends(hist, l3);
    } else if |l3| > 1 {
      var init := l3[..|l3| - 1];
      assert Last(init) == l3[|l3| - 2];
      ScanFinds(hist, init, height);
    }
  }

  /**
   * Whenever the window has an answer it is the one of the whole history, and it has one exactly
   * for the heights from its first block up to `lastheight`.
   */
  lemma AnswersRefineHistory(hist: seq<Proof>, s: State, height: int)
    requires History(hist) && Inv(hist, s)
    ensures GetSuffrageSpec(s, height).Some? ==> GetSuffrageSpec(s, height) == Lookup(hist, height)
    ensures GetSuffrageSpec(s, height).Some? <==> s.last != [] && s.last[0].height <= height <= s.lastheight
  {
    if s.last != [] && height <= s.lastheight {
      KnownMonotone(hist, height, s.lastheight);
      ScanFinds(hist, s.last, height);
      KnownBounds(hist, s.lastheight);
      GapFreeAscends(hist, s.last);
      assert Of(hist, Last(s.last));
    }
  }

  // ---------------------------------------------------------------- what the window keeps

  /** Every proof of `ps` is the direct predecessor of the one after it, the last one that of `next`. */
  ghost predicate LeadsTo(ps: seq<Proof>, next: Proof)
    decreases ps
  {
    ps == [] || (Last(ps).suffrageHeight + 1 == next.suffrageHeight && LeadsTo(ps[..|ps| - 1], Last(ps)))
  }

  lemma {:induction false} ContiguousLeads(ps: seq<Proof>, next: Proof)
    requires Contiguous(ps) && (ps != [] ==> Last(ps).suffrageHeight + 1 == next.suffrageHeight)
    ensures LeadsTo(ps, next)
    decreases ps
  {
    if |ps| > 1 {
      var init := ps[..|ps| - 1];
      assert Last(init) == ps[|ps| - 2];
      ContiguousLeads(init, Last(ps));
    }
  }

  /** As many direct predecessors go in front as there are and fit. */
  lemma {:induction false} PrependExact(w: seq<Proof>, a: seq<Proof>) returns (j: nat)
    requires w != [] && |w| <= 3
    ensures j <= |a| && Prepend(w, a) == a[j..] + w
    ensures |a| - j + |w| <= 3 && LeadsTo(a[j..], w[0])
    ensures j > 0 && |a| - j + |w| < 3 ==> !LeadsTo(a[j - 1..], w[0])
    decreases a
  {
    if |w| >= 3 || a == [] || w[0].suffrageHeight != Last(a).suffrageHeight + 1 {
      j := |a|;
      assert a[j..] + w == w;
      assert j > 0 ==> Last(a[j - 1..]) == Last(a);
    } else {
      j := PrependExact([Last(a)] + w, a[..|a| - 1]);
      PrependOne(w, a, j);
    }
  }

  lemma PrependOne(w: seq<Proof>, a: seq<Proof>, j: nat)
    requires a != [] && j <= |a| - 1
    ensures var init := a[..|a| - 1];
      && init[j..] + ([Last(a)] + w) == a[j..] + w
      && a[j..][..|a[j..]| - 1] == init[j..] && Last(a[j..]) == Last(a)
      && (j > 0 ==> a[j - 1..][..|a[j - 1..]| - 1] == init[j - 1..] && Last(a[j - 1..]) == Last(a))
  {
    var init := a[..|a| - 1];
    assert a[j..] == init[j..] + [Last(a)];
  }

  lemma NewPartIsSuffix(hist: seq<Proof>, a: seq<Proof>, b: seq<Proof>) returns (k: nat)
    requires History(hist) && AllOf(hist, b) && GapFree(b)
    ensures k <= |b| && NewPart(a, b) == b[k..]
    ensures forall i :: 0 <= i < |b| ==> (i < k <==> a != [] && b[i].height <= Last(a).height)
  {
    k := 0;
    if a != [] {
      k := NewerIsSuffix(hist, b, Last(a).height);
    }
  }

  /**
   * Exactly what the new window is: nothing if no proof is newer; the last three if there are as
   * many newer ones; otherwise all newer ones behind as many direct predecessors as there are and fit.
   * `b[k..]` are the newer proofs and `a[j..]` the predecessors.
   */
  lemma CompareExact(hist: seq<Proof>, a: seq<Proof>, b: seq<Proof>) returns (j: nat, k: nat)
    requires History(hist) && AllOf(hist, b) && GapFree(b)
    ensures k <= |b| && forall i :: 0 <= i < |b| ==> (i < k <==> a != [] && b[i].height <= Last(a).height)
    ensures j <= |a|
    ensures k == |b| ==> CompareSpec(a, b) == []
    ensures |b| - k >= 3 ==> CompareSpec(a, b) == b[|b| - 3..]
    ensures 0 < |b| - k < 3 ==>
              && CompareSpec(a, b) == a[j..] + b[k..]
              && |CompareSpec(a, b)| <= 3 && LeadsTo(a[j..], b[k])
              && (j > 0 && |CompareSpec(a, b)| < 3 ==> !LeadsTo(a[j - 1..], b[k]))
  {
    j := |a|;
    k := NewPartIsSuffix(hist, a, b);
    if 0 < |b| - k < 3 {
      j := PrependExact(b[k..], a);
    } else if |b| - k >= 3 {
      assert b[k..][|b| - k - 3..] == b[|b| - 3..];
    }
  }

  function LastThree(ps: seq<Proof>): seq<Proof> {
    if |ps| <= 3 then ps else ps[|ps| - 3..]
  }

  /** Where contiguous lists meet, all newer proofs and the last three are known by their places. */
  lemma MeetingLists(hist: seq<Proof>, a: seq<Proof>, b: seq<Proof>, k: nat) returns (j: nat)
    requires History(hist) && AllOf(hist, a) && AllOf(hist, b) && Contiguous(a) && Contiguous(b)
    requires a != [] && k < |b| && b[k].suffrageHeight == Last(a).suffrageHeight + 1
    ensures |b| - k >= 3 ==> CompareSpec(a, b) == b[|b| - 3..]
    ensures |b| - k < 3 ==> j <= |a| && CompareSpec(a, b) == a[j..] + b[k..]
                            && |CompareSpec(a, b)| <= 3 && (j == 0 || |CompareSpec(a, b)| == 3)
  {
    var k';
    j, k' := CompareExact(hist, a, b);
    NewerFrom(hist, b, Last(a), k);
    SameBorder(b, Last(a).height, k, k');
    if j > 0 {
      LeadsIn(a, j - 1, b[k]);
    }
  }

  /** Contiguous lists that meet make the window of the last three of both together. */
  lemma WindowIsMaximal(hist: seq<Proof>, a: seq<Proof>, b: seq<Proof>, k: nat)
    requires History(hist) && AllOf(hist, a) && AllOf(hist, b) && Contiguous(a) && Contiguous(b)
    requires a != [] && k < |b| && b[k].suffrageHeight == Last(a).suffrageHeight + 1
    ensures CompareSpec(a, b) == LastThree(a + b[k..])
  {
    var j := MeetingLists(hist, a, b, k);
    if |b| - k < 3 {
      JoinedWindow(a, b[k..], j);
    } else {
      ManyNew(a, b, k);
    }
  }

  lemma ManyNew(a: seq<Proof>, b: seq<Proof>, k: nat)
    requires k <= |b| - 3
    ensures LastThree(a + b[k..]) == b[|b| - 3..]
  {
    var all := a + b[k..];
    assert |all| > 3 ==> all[|all| - 3..] == b[|b| - 3..];
  }

  lemma SameBorder(b: seq<Proof>, top: int, k: nat, k': nat)
    requires k <= |b| && forall i :: 0 <= i < |b| ==> (i < k <==> b[i].height <= top)
    requires k' <= |b| && forall i :: 0 <= i < |b| ==> (i < k' <==> b[i].height <= top)
    ensures k == k'
  {
    assert k < |b| ==> (k < k' <==> b[k].height <= top);
    assert k' < |b| ==> (k' < k <==> b[k'].height <= top);
  }

  lemma LeadsIn(a: seq<Proof>, j: nat, next: Proof)
    requires Contiguous(a) && j < |a| && Last(a).suffrageHeight + 1 == next.suffrageHeight
    ensures LeadsTo(a[j..], next)
  {
    assert Last(a[j..]) == Last(a);
    ContiguousLeads(a[j..], next);
  }

  lemma JoinedWindow(a: seq<Proof>, nb: seq<Proof>, j: nat)
    requires j <= |a| && |a| - j + |nb| <= 3 && (j == 0 || |a| - j + |nb| == 3)
    ensures a[j..] + nb == LastThree(a + nb)
  {
    assert a[j..] + nb == (a + nb)[j..];
  }

  /** In a contiguous list exactly the direct successor of a proof and what follows it are newer. */
  lemma NewerFrom(hist: seq<Proof>, b: seq<Proof>, top: Proof, k: nat)
    requires History(hist) && AllOf(hist, b) && Of(hist, top) && Contiguous(b)
    requires k < |b| && b[k].suffrageHeight == top.suffrageHeight + 1
    ensures forall i :: 0 <= i < |b| ==> (i < k <==> b[i].height <= top.height)
  {
    GapFreeAscends(hist, b);
    forall i | 0 <= i < |b|
      ensures i < k <==> b[i].height <= top.height
    {
      assert Of(hist, b[i]) && Of(hist, b[k]);
      SameOrder(hist, b[i], top);
      if i < k {
        assert b[k - 1].suffrageHeight + 1 == b[k].suffrageHeight;
        assert b[i].suffrageHeight <= b[k - 1].suffrageHeight;
      }
    }
  }

  /** Whatever the window, its last proof answers for `lastheight`; later heights have no answer, nor has a watcher that knows nothing. */
  lemma AnswersAtTheEnd(s: State, height: int)
    ensures s.lastheight > NIL_HEIGHT && s.last != [] ==> GetSuffrageSpec(s, s.lastheight) == Some(Last(s.last))
    ensures height > s.lastheight || s.lastheight <= NIL_HEIGHT || s.last == [] ==> GetSuffrageSpec(s, height) == None
  {
  }

  /** A newer proof of the local source replaces the window, and any other one leaves it alone. */
  lemma LocalReplacesWindow(s: State, local: Local)
    requires !local.Failed?
    ensures LoadSpec(s, local).last ==
            if local.Found? && (s.last == [] || local.proof.height > Last(s.last).height) then [local.proof] else s.last
  {
    if local.Found? && s.last == [] {
      assert Prepend([local.proof], s.last) == [local.proof];
    }
  }

  /**
   * When a watcher that is not behind its local source learns of the next proofs, its window is
   * the last three of what it had and what is new, and every height from the first of them on has
   * the answer of the history. As long as three are enough, no height loses its answer.
   */
  lemma GrowthKeepsAnswers(hist: seq<Proof>, s: State, local: Local, height: int, proofs: seq<Proof>,
                           candidates: Option<Candidates>, k: nat)
    requires History(hist) && Inv(hist, s) && LocalReports(hist, local) && Reports(hist, s, height, proofs)
    requires s.last != [] && Contiguous(s.last) && Contiguous(proofs)
    requires !local.Failed? && (local.Found? ==> local.proof.height <= Last(s.last).height)
    requires k < |proofs| && proofs[k].suffrageHeight == Last(s.last).suffrageHeight + 1
    ensures var s' := UpdateSpec(s, local, height, proofs, candidates);
      && s'.last == LastThree(s.last + proofs[k..])
      && (forall h :: s'.last[0].height <= h <= s'.lastheight ==>
            GetSuffrageSpec(s', h).Some? && GetSuffrageSpec(s', h) == Lookup(hist, h))
      && (|s.last| + |proofs| - k <= 3 ==>
            forall h :: GetSuffrageSpec(s, h).Some? ==> GetSuffrageSpec(s', h) == GetSuffrageSpec(s, h))
  {
    var s' := UpdateSpec(s, local, height, proofs, candidates);
    LocalReplacesWindow(s, local);
    LoadKeepsInv(hist, s, local);
    WindowIsMaximal(hist, s.last, proofs, k);
    UpdateKeepsInv(hist, s, local, height, proofs, candidates);
    forall h
      ensures s'.last[0].height <= h <= s'.lastheight ==>
                GetSuffrageSpec(s', h).Some? && GetSuffrageSpec(s', h) == Lookup(hist, h)
    {
      AnswersRefineHistory(hist, s', h);
    }
    if |s.last| + |proofs| - k <= 3 {
      forall h | GetSuffrageSpec(s, h).Some?
        ensures GetSuffrageSpec(s', h) == GetSuffrageSpec(s, h)
      {
        AnswersRefineHistory(hist, s, h);
        AnswersRefineHistory(hist, s', h);
      }
    }
  }

  /** `c` is known, and none of the others is for a later height. */
  predicate NewestOf(c: Option<Candidates>, all: seq<Option<Candidates>>) {
    && c in all
    && forall d :: d in all && d.Some? ==> c.Some? && d.value.height <= c.value.height
  }

  /** An update ends at the greatest height and with the newest candidates it has heard of; what it had wins a tie. */
  lemma UpdateTakesNewest(s: State, local: Local, height: int, proofs: seq<Proof>, candidates: Option<Candidates>)
    ensures local.Failed? ==> UpdateSpec(s, local, height, proofs, candidates) == s
    ensures !local.Failed? ==>
      var s' := UpdateSpec(s, local, height, proofs, candidates);
      var all := [s.candidates, if local.Found? then local.candidates else None, candidates];
      && s'.lastheight in [s.lastheight, local.height, height]
      && s'.lastheight >= s.lastheight && s'.lastheight >= local.height && s'.lastheight >= height
      && NewestOf(s'.candidates, all)
      && (NewestOf(s.candidates, all) ==> s'.candidates == s.candidates)
  {
  }

  // ---------------------------------------------------------------- runs

  datatype Report = Report(local: Local, height: int, proofs: seq<Proof>, candidates: Option<Candidates>)

  function Run(s: State, rs: seq<Report>): State
    decreases rs
  {
    if rs == [] then s
    else Run(UpdateSpec(s, rs[0].local, rs[0].height, rs[0].proofs, rs[0].candidates), rs[1..])
  }

  ghost predicate AllReport(hist: seq<Proof>, s: State, rs: seq<Report>)
    decreases rs
  {
    rs == [] ||
    (&& LocalReports(hist, rs[0].local)
     && Reports(hist, s, rs[0].height, rs[0].proofs)
     && AllReport(hist, UpdateSpec(s, rs[0].local, rs[0].height, rs[0].proofs, rs[0].candidates), rs[1..]))
  }

  /** After any run of updates the answers are those of the whole history. */
  lemma {:induction false} RunRefinesHistory(hist: seq<Proof>, s: State, rs: seq<Report>, height: int)
    requires History(hist) && Inv(hist, s) && AllReport(hist, s, rs)
    ensures Inv(hist, Run(s, rs))
    ensures GetSuffrageSpec(Run(s, rs), height).Some? ==>
              GetSuffrageSpec(Run(s, rs), height) == Lookup(hist, height)
    decreases rs
  {
    if rs == [] {
      AnswersRefineHistory(hist, s, height);
    } else {
      UpdateKeepsInv(hist, s, rs[0].local, rs[0].height, rs[0].proofs, rs[0].candidates);
      RunRefinesHistory(hist, UpdateSpec(s, rs[0].local, rs[0].height, rs[0].proofs, rs[0].candidates), rs[1..], height);
    }
  }
}
