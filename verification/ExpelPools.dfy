/** The pool of expel operations (isaac/database/pool.go, isaac/database/leveldb.go). */
module ExpelPools {
  import opened Wrappers
  import opened StringOrder
  import opened Sequences
  import opened Suffrages

  /** The hash of an expel fact, which is its node, start and end. */
  type FactHash = (string, int, int) -> string

  function HashOf(hash: FactHash, op: ExpelOperation): string {
    hash(op.node, op.start, op.end)
  }

  // ---------------------------------------------------------------- keys

  /** Keys are the end of the span followed by the hash of the fact. */
  predicate SameKey(hash: FactHash, a: ExpelOperation, b: ExpelOperation) {
    a.end == b.end && HashOf(hash, a) == HashOf(hash, b)
  }

  /** Does `a` have the greater key? */
  predicate Above(hash: FactHash, a: ExpelOperation, b: ExpelOperation) {
    a.end > b.end || (a.end == b.end && Less(HashOf(hash, b), HashOf(hash, a)))
  }

  lemma AboveIsStrictOrder(hash: FactHash, a: ExpelOperation, b: ExpelOperation, c: ExpelOperation)
    ensures SameKey(hash, a, b) || Above(hash, a, b) || Above(hash, b, a)
    ensures SameKey(hash, a, b) ==> !Above(hash, a, b)
    ensures Above(hash, a, b) ==> !Above(hash, b, a)
    ensures Above(hash, a, b) && Above(hash, b, c) ==> Above(hash, a, c)
    ensures SameKey(hash, a, b) ==> (Above(hash, a, c) <==> Above(hash, b, c)) && (Above(hash, c, a) <==> Above(hash, c, b))
  {
    LessTotal(HashOf(hash, a), HashOf(hash, b));
    if Less(HashOf(hash, a), HashOf(hash, b)) {
      LessAsymmetric(HashOf(hash, a), HashOf(hash, b));
    } else if Less(HashOf(hash, b), HashOf(hash, a)) {
      LessAsymmetric(HashOf(hash, b), HashOf(hash, a));
    }
    if Above(hash, a, b) && Above(hash, b, c) && a.end == c.end {
      LessTransitive(HashOf(hash, c), HashOf(hash, b), HashOf(hash, a));
    }
  }

  // ---------------------------------------------------------------- the pool

  /** The operations in the order of a traversal, which goes from the greatest key down. */
  type Pool = seq<ExpelOperation>

  ghost predicate Ordered(hash: FactHash, pool: Pool) {
    forall i, j :: 0 <= i < j < |pool| ==> Above(hash, pool[i], pool[j])
  }

  predicate Covers(op: ExpelOperation, height: int) {
    op.start <= height <= op.end
  }

  /** The first operation on the node that the traversal meets; none if it does not cover the height. */
  function Lookup(pool: Pool, height: int, node: string): Option<ExpelOperation> {
    if pool == [] then None
    else if pool[0].node != node then Lookup(pool[1..], height, node)
    else if Covers(pool[0], height) then Some(pool[0])
    else None
  }

  /** Storing replaces the operation that has the same key. */
  function Put(hash: FactHash, pool: Pool, op: ExpelOperation): Pool {
    if pool == [] || Above(hash, op, pool[0]) then [op] + pool
    else if SameKey(hash, op, pool[0]) then [op] + pool[1..]
    else [pool[0]] + Put(hash, pool[1..], op)
  }

  function RemoveByFact(hash: FactHash, pool: Pool, op: ExpelOperation): Pool {
    if pool == [] then []
    else if SameKey(hash, op, pool[0]) then RemoveByFact(hash, pool[1..], op)
    else [pool[0]] + RemoveByFact(hash, pool[1..], op)
  }

  function RemoveByHeight(pool: Pool, height: int): Pool {
    if pool == [] then []
    else if pool[0].end <= height then RemoveByHeight(pool[1..], height)
    else [pool[0]] + RemoveByHeight(pool[1..], height)
  }

  // ---------------------------------------------------------------- order and contents

  lemma RestOrdered(hash: FactHash, pool: Pool)
    requires pool != [] && Ordered(hash, pool)
    ensures Ordered(hash, pool[1..])
    ensures forall x :: x in pool[1..] ==> Above(hash, pool[0], x)
  {
  }

  lemma FrontOrdered(hash: FactHash, x: ExpelOperation, pool: Pool)
    requires Ordered(hash, pool) && forall y :: y in pool ==> Above(hash, x, y)
    ensures Ordered(hash, [x] + pool)
  {
  }

  /** Storing keeps the order, puts the operation in, and takes only its predecessor out. */
  lemma {:induction false} PutKeeps(hash: FactHash, pool: Pool, op: ExpelOperation)
    requires Ordered(hash, pool)
    ensures Ordered(hash, Put(hash, pool, op))
    ensures forall x :: x in Put(hash, pool, op) <==> x == op || (x in pool && !SameKey(hash, op, x))
  {
    if pool != [] {
      var first, rest := pool[0], pool[1..];
      assert pool == [first] + rest;
      RestOrdered(hash, pool);
      AboveIsStrictOrder(hash, op, first, first);
      forall x | x in rest
        ensures Above(hash, op, first) || SameKey(hash, op, first) ==> Above(hash, op, x)
        ensures Above(hash, op, x) ==> !SameKey(hash, op, x)
      {
        AboveIsStrictOrder(hash, op, first, x);
        AboveIsStrictOrder(hash, op, x, x);
      }
      if Above(hash, op, first) {
        FrontOrdered(hash, op, pool);
      } else if SameKey(hash, op, first) {
        FrontOrdered(hash, op, rest);
      } else {
        PutKeeps(hash, rest, op);
        FrontOrdered(hash, first, Put(hash, rest, op));
      }
    }
  }

  /** What a lookup finds is the operation with the greatest key among those on the node. */
  lemma {:induction false} LookupIff(hash: FactHash, pool: Pool, height: int, node: string, top: ExpelOperation)
    requires Ordered(hash, pool)
    ensures Lookup(pool, height, node) == Some(top) <==>
              && top in pool && top.node == node && Covers(top, height)
              && forall x :: x in pool && x.node == node ==> x == top || Above(hash, top, x)
  {
    if pool != [] {
      assert pool == [pool[0]] + pool[1..];
      RestOrdered(hash, pool);
      AboveIsStrictOrder(hash, top, pool[0], top);
      AboveIsStrictOrder(hash, top, top, top);
      LookupIff(hash, pool[1..], height, node, top);
    }
  }

  // ---------------------------------------------------------------- traversing the pool

  /** Operations that a search for expels at `height` is about. */
  predicate Eligible(op: ExpelOperation, height: int, suf: Suffrage) {
    Covers(op, height) && suf.Exists(op.node)
  }

  /** The operations before the first one that is not eligible, where the traversal stops. */
  function Collected(pool: Pool, height: int, suf: Suffrage): Pool {
    if pool == [] || !Eligible(pool[0], height, suf) then []
    else [pool[0]] + Collected(pool[1..], height, suf)
  }

  /** The operation that stopped the traversal, if it is for now but about a node that is no member. */
  function Stranger(pool: Pool, height: int, suf: Suffrage): Option<ExpelOperation> {
    if pool == [] || !Covers(pool[0], height) then None
    else if !suf.Exists(pool[0].node) then Some(pool[0])
    else Stranger(pool[1..], height, suf)
  }

  function AllEligible(pool: Pool, height: int, suf: Suffrage): Pool {
    if pool == [] then []
    else if Eligible(pool[0], height, suf) then [pool[0]] + AllEligible(pool[1..], height, suf)
    else AllEligible(pool[1..], height, suf)
  }

  /** The traversal with the callback of Find. */
  method Traverse(pool: Pool, height: int, suf: Suffrage)
    returns (collected: seq<ExpelOperation>, expires: seq<ExpelOperation>)
    ensures collected == Collected(pool, height, suf)
    ensures expires == if Stranger(pool, height, suf).Some? then [Stranger(pool, height, suf).value] else []
  {
    collected, expires := [], [];
    for i := 0 to |pool|
      invariant collected + Collected(pool[i..], height, suf) == Collected(pool, height, suf)
      invariant Stranger(pool[i..], height, suf) == Stranger(pool, height, suf)
      invariant expires == []
    {
      var op := pool[i];
      assert pool[i..][0] == op && pool[i..][1..] == pool[i + 1..];
      if op.end < height || op.start > height {
        return;
      }
      if !suf.Exists(op.node) {
        expires := expires + [op];
        return;
      }
      collected := collected + [op];
    }
  }

  lemma {:induction false} CollectedAreEligible(pool: Pool, height: int, suf: Suffrage)
    ensures Collected(pool, height, suf) <= pool
    ensures forall op :: op in Collected(pool, height, suf) ==> op in pool && Eligible(op, height, suf)
    ensures forall op :: op in AllEligible(pool, height, suf) <==> op in pool && Eligible(op, height, suf)
  {
    if pool != [] {
      assert pool == [pool[0]] + pool[1..];
      CollectedAreEligible(pool[1..], height, suf);
    }
  }

  /**
   * The traversal goes on exactly as long as operations are eligible; a stranger is reported if
   * that is what it met then.
   */
  lemma {:induction false} TraversalStops(pool: Pool, height: int, suf: Suffrage)
    ensures var k := |Collected(pool, height, suf)|;
      && k <= |pool| && Collected(pool, height, suf) == pool[..k]
      && (forall i :: 0 <= i < k ==> Eligible(pool[i], height, suf))
      && (k < |pool| ==> !Eligible(pool[k], height, suf))
      && Stranger(pool, height, suf) ==
         if k < |pool| && Covers(pool[k], height) then Some(pool[k]) else None
  {
    if pool != [] && Eligible(pool[0], height, suf) {
      TraversalStops(pool[1..], height, suf);
    }
  }

  /** An operation that is not for now yet, or is about a node that is no member. */
  predicate Blocks(op: ExpelOperation, height: int, suf: Suffrage) {
    op.start > height || !suf.Exists(op.node)
  }

  ghost predicate Hidden(pool: Pool, height: int, suf: Suffrage) {
    exists i, j :: 0 <= i < j < |pool| && Blocks(pool[i], height, suf) && Eligible(pool[j], height, suf)
  }

  /**
   * All eligible operations are collected exactly if none of them comes after an operation that
   * has not started or is about a stranger. Expired operations hide nothing: they come last.
   */
  lemma {:induction false} CollectsAllIff(hash: FactHash, pool: Pool, height: int, suf: Suffrage)
    requires Ordered(hash, pool)
    ensures Collected(pool, height, suf) == AllEligible(pool, height, suf) <==> !Hidden(pool, height, suf)
  {
    if pool != [] {
      var rest := pool[1..];
      assert pool == [pool[0]] + rest;
      RestOrdered(hash, pool);
      if Eligible(pool[0], height, suf) {
        CollectsAllIff(hash, rest, height, suf);
        assert Collected(pool, height, suf)[1..] == Collected(rest, height, suf);
        assert AllEligible(pool, height, suf)[1..] == AllEligible(rest, height, suf);
        HiddenInRest(pool, height, suf);
      } else {
        HiddenByFirst(hash, pool, height, suf);
      }
    }
  }

  lemma HiddenByFirst(hash: FactHash, pool: Pool, height: int, suf: Suffrage)
    requires pool != [] && Ordered(hash, pool) && !Eligible(pool[0], height, suf)
    ensures AllEligible(pool, height, suf) == [] <==> !Hidden(pool, height, suf)
  {
    var all := AllEligible(pool, height, suf);
    CollectedAreEligible(pool, height, suf);
    if all != [] {
      assert all[0] in all;
      var j :| 0 <= j < |pool| && pool[j] == all[0];
      assert Above(hash, pool[0], pool[j]);
      assert Blocks(pool[0], height, suf);
    }
    if i, j :| 0 <= i < j < |pool| && Blocks(pool[i], height, suf) && Eligible(pool[j], height, suf) {
      assert pool[j] in all;
    }
  }

  lemma HiddenInRest(pool: Pool, height: int, suf: Suffrage)
    requires pool != [] && Eligible(pool[0], height, suf)
    ensures Hidden(pool, height, suf) <==> Hidden(pool[1..], height, suf)
  {
    if i, j :| 0 <= i < j < |pool| && Blocks(pool[i], height, suf) && Eligible(pool[j], height, suf) {
      assert pool[1..][i - 1] == pool[i] && pool[1..][j - 1] == pool[j];
    }
    if i, j :| 0 <= i < j < |pool[1..]| && Blocks(pool[1..][i], height, suf) && Eligible(pool[1..][j], height, suf) {
      assert pool[i + 1] == pool[1..][i] && pool[j + 1] == pool[1..][j];
    }
  }

  // ---------------------------------------------------------------- finding again

  /** Find forgets the stranger that stopped it, and what ended before the height. */
  function Cleaned(hash: FactHash, pool: Pool, height: int, suf: Suffrage): Pool {
    var stranger := Stranger(pool, height, suf);
    var p := if stranger.Some? then RemoveByFact(hash, pool, stranger.value) else pool;
    if height - 1 >= 0 then RemoveByHeight(p, height - 1) else p
  }

  function CleanedTimes(hash: FactHash, pool: Pool, height: int, suf: Suffrage, n: nat): Pool
    decreases n
  {
    if n == 0 then pool else CleanedTimes(hash, Cleaned(hash, pool, height, suf), height, suf, n - 1)
  }

  predicate IsStranger(op: ExpelOperation, height: int, suf: Suffrage) {
    Covers(op, height) && !suf.Exists(op.node)
  }

  function CountStrangers(pool: Pool, height: int, suf: Suffrage): nat {
    if pool == [] then 0
    else (if IsStranger(pool[0], height, suf) then 1 else 0) + CountStrangers(pool[1..], height, suf)
  }

  lemma {:induction false} StrangerIsThere(pool: Pool, height: int, suf: Suffrage)
    ensures Stranger(pool, height, suf).Some? ==>
              Stranger(pool, height, suf).value in pool && IsStranger(Stranger(pool, height, suf).value, height, suf)
  {
    if pool != [] {
      assert pool == [pool[0]] + pool[1..];
      StrangerIsThere(pool[1..], height, suf);
    }
  }

  lemma {:induction false} RemoveByFactKeeps(hash: FactHash, pool: Pool, op: ExpelOperation, height: int, suf: Suffrage)
    requires Ordered(hash, pool)
    ensures Ordered(hash, RemoveByFact(hash, pool, op))
    ensures forall x :: x in RemoveByFact(hash, pool, op) <==> x in pool && !SameKey(hash, op, x)
    ensures op in pool ==> CountStrangers(RemoveByFact(hash, pool, op), height, suf) ==
                           CountStrangers(pool, height, suf) - (if IsStranger(op, height, suf) then 1 else 0)
    ensures op in pool && !Eligible(op, height, suf) ==>
              AllEligible(RemoveByFact(hash, pool, op), height, suf) == AllEligible(pool, height, suf)
  {
    if pool != [] {
      var first, rest := pool[0], pool[1..];
      assert pool == [first] + rest;
      RestOrdered(hash, pool);
      RemoveByFactKeeps(hash, rest, op, height, suf);
      FrontOrdered(hash, first, RemoveByFact(hash, rest, op));
      AboveIsStrictOrder(hash, op, first, first);
      if SameKey(hash, op, first) {
        forall x | x in rest
          ensures !SameKey(hash, op, x) && op != x
        {
          AboveIsStrictOrder(hash, first, op, x);
          AboveIsStrictOrder(hash, op, x, x);
        }
        NothingToRemove(hash, rest, op);
      }
    }
  }

  lemma {:induction false} NothingToRemove(hash: FactHash, pool: Pool, op: ExpelOperation)
    requires forall x :: x in pool ==> !SameKey(hash, op, x)
    ensures RemoveByFact(hash, pool, op) == pool
  {
    if pool != [] {
      NothingToRemove(hash, pool[1..], op);
    }
  }

  lemma {:induction false} RemoveByHeightKeeps(hash: FactHash, pool: Pool, height: int, suf: Suffrage)
    requires Ordered(hash, pool)
    ensures Ordered(hash, RemoveByHeight(pool, height - 1))
    ensures forall x :: x in RemoveByHeight(pool, height - 1) <==> x in pool && x.end >= height
    ensures CountStrangers(RemoveByHeight(pool, height - 1), height, suf) == CountStrangers(pool, height, suf)
    ensures AllEligible(RemoveByHeight(pool, height - 1), height, suf) == AllEligible(pool, height, suf)
  {
    if pool != [] {
      assert pool == [pool[0]] + pool[1..];
      RestOrdered(hash, pool);
      RemoveByHeightKeeps(hash, pool[1..], height, suf);
      FrontOrdered(hash, pool[0], RemoveByHeight(pool[1..], height - 1));
    }
  }

  /** Exactly the stranger and what ended before the height are gone; before genesis nothing has ended. */
  lemma CleanedExact(hash: FactHash, pool: Pool, height: int, suf: Suffrage)
    requires Ordered(hash, pool)
    ensures forall x :: x in Cleaned(hash, pool, height, suf) <==>
              x in pool && Some(x) != Stranger(pool, height, suf) && (height >= 1 ==> x.end >= height)
  {
    var stranger := Stranger(pool, height, suf);
    StrangerIsThere(pool, height, suf);
    if stranger.Some? {
      RemoveByFactKeeps(hash, pool, stranger.value, height, suf);
      RemoveByHeightKeeps(hash, RemoveByFact(hash, pool, stranger.value), height, suf);
      forall x | x in pool
        ensures SameKey(hash, stranger.value, x) <==> x == stranger.value
      {
        OneOfAKey(hash, pool, x, stranger.value);
      }
    } else {
      RemoveByHeightKeeps(hash, pool, height, suf);
    }
  }

  lemma OneOfAKey(hash: FactHash, pool: Pool, a: ExpelOperation, b: ExpelOperation)
    requires Ordered(hash, pool) && a in pool && b in pool
    ensures SameKey(hash, a, b) <==> a == b
  {
    var i :| 0 <= i < |pool| && pool[i] == a;
    var j :| 0 <= j < |pool| && pool[j] == b;
    AboveIsStrictOrder(hash, a, b, b);
    AboveIsStrictOrder(hash, b, a, a);
  }

  /** Cleaning takes one stranger and the expired operations, and nothing eligible. */
  lemma CleanedKeeps(hash: FactHash, pool: Pool, height: int, suf: Suffrage)
    requires Ordered(hash, pool)
    ensures var pool' := Cleaned(hash, pool, height, suf);
      && Ordered(hash, pool')
      && (forall x :: x in pool' ==> x in pool)
      && AllEligible(pool', height, suf) == AllEligible(pool, height, suf)
      && CountStrangers(pool', height, suf) ==
         CountStrangers(pool, height, suf) - (if Stranger(pool, height, suf).Some? then 1 else 0)
  {
    var stranger := Stranger(pool, height, suf);
    StrangerIsThere(pool, height, suf);
    if stranger.Some? {
      RemoveByFactKeeps(hash, pool, stranger.value, height, suf);
      RemoveByHeightKeeps(hash, RemoveByFact(hash, pool, stranger.value), height, suf);
    } else {
      RemoveByHeightKeeps(hash, pool, height, suf);
    }
  }

  lemma {:induction false} NoStrangers(pool: Pool, height: int, suf: Suffrage)
    requires CountStrangers(pool, height, suf) == 0
    ensures forall x :: x in pool ==> !IsStranger(x, height, suf)
  {
    if pool != [] {
      assert pool == [pool[0]] + pool[1..];
      NoStrangers(pool[1..], height, suf);
    }
  }

  lemma {:induction false} NoStrangerStops(hash: FactHash, pool: Pool, height: int, suf: Suffrage)
    requires Ordered(hash, pool) && forall x :: x in pool ==> x.start <= height
    requires Stranger(pool, height, suf) == None
    ensures Collected(pool, height, suf) == AllEligible(pool, height, suf)
  {
    if pool != [] {
      RestOrdered(hash, pool);
      assert forall x :: x in pool[1..] ==> x in pool;
      if Covers(pool[0], height) {
        NoStrangerStops(hash, pool[1..], height, suf);
      } else {
        assert pool[0] in pool;
        AllExpired(pool[1..], height, suf);
      }
    }
  }

  /** Where everything has started, finding once more than there are strangers looks at every eligible operation. */
  lemma {:induction false} FindingAgainCollectsAll(hash: FactHash, pool: Pool, height: int, suf: Suffrage, n: nat)
    requires Ordered(hash, pool) && forall x :: x in pool ==> x.start <= height
    requires n >= CountStrangers(pool, height, suf)
    ensures Collected(CleanedTimes(hash, pool, height, suf, n), height, suf) == AllEligible(pool, height, suf)
    decreases n
  {
    if n == 0 {
      NoStrangers(pool, height, suf);
      StrangerIsThere(pool, height, suf);
      NoStrangerStops(hash, pool, height, suf);
    } else {
      CleanedKeeps(hash, pool, height, suf);
      if Stranger(pool, height, suf) == None && CountStrangers(pool, height, suf) == n {
        StrangerIsMet(hash, pool, height, suf);
      }
      FindingAgainCollectsAll(hash, Cleaned(hash, pool, height, suf), height, suf, n - 1);
    }
  }

  /** Where everything has started, a stranger is met if there is one. */
  lemma {:induction false} StrangerIsMet(hash: FactHash, pool: Pool, height: int, suf: Suffrage)
    requires Ordered(hash, pool) && forall x :: x in pool ==> x.start <= height
    ensures Stranger(pool, height, suf) == None ==> CountStrangers(pool, height, suf) == 0
  {
    if pool != [] {
      RestOrdered(hash, pool);
      assert forall x :: x in pool[1..] ==> x in pool;
      assert pool[0] in pool;
      if Covers(pool[0], height) {
        StrangerIsMet(hash, pool[1..], height, suf);
      } else {
        AllExpired(pool[1..], height, suf);
      }
    }
  }

  lemma {:induction false} AllExpired(pool: Pool, height: int, suf: Suffrage)
    requires forall x :: x in pool ==> x.end < height
    ensures CountStrangers(pool, height, suf) == 0 && AllEligible(pool, height, suf) == []
  {
    if pool != [] {
      assert pool[0] in pool;
      AllExpired(pool[1..], height, suf);
    }
  }
}
