/** The pool of rate limiters by address (launch/ratelimit.go). */
module AddrPool {
  import opened Wrappers
  import opened Sequences
  import opened AddrQueues

  datatype RateLimiter = RateLimiter(id: int)

  /** Limiters by handler. */
  type Limiters = map<string, RateLimiter>

  /**
   * Makes the limiter of a handler from the one there is, whether the address is new, and the
   * node; None keeps what there is.
   */
  type MakeLimiter = (Option<RateLimiter>, bool, Option<string>) -> Option<RateLimiter>

  // ---------------------------------------------------------------- specification

  datatype State = State(
    l: map<string, Limiters>, addrs: map<string, string>, lastAccessedAt: map<string, int>, queue: seq<string>)

  /** The three indexes are about the same addresses, and nodes are known only for those. */
  ghost predicate Agree(s: State) {
    && s.l.Keys == s.lastAccessedAt.Keys == ToSet(s.queue)
    && s.addrs.Keys <= s.l.Keys
    && Distinct(s.queue)
  }

  /** The maps without some addresses, and another queue. */
  function TakeOut(s: State, out: set<string>, queue: seq<string>): State {
    State(s.l - out, s.addrs - out, s.lastAccessedAt - out, queue)
  }

  function RemoveAll(s: State, out: set<string>): State {
    TakeOut(s, out, Without(s.queue, out))
  }

  function AddNodeSpec(s: State, addr: string, node: string, now: int): (State, bool) {
    if addr in s.l && addr !in s.addrs then
      (s.(addrs := s.addrs[addr := node], lastAccessedAt := s.lastAccessedAt[addr := now]), true)
    else (s, false)
  }

  /** An address without any limiter counts as new and goes to the end of the queue. */
  function AccessSpec(s: State, addr: string, handler: string, node: Option<string>, f: MakeLimiter, now: int)
    : (State, Option<RateLimiter>)
  {
    var i := if addr in s.l then s.l[addr] else map[];
    var hint := if addr in s.addrs then Some(s.addrs[addr]) else node;
    var (i', limiter) := SetLimiter(i, handler, i == map[], hint, f);
    (Accessed(s, addr, i, now).(l := s.l[addr := i']), limiter)
  }

  /** The state once the address, with the limiters `i`, has been looked up. */
  function Accessed(s: State, addr: string, i: Limiters, now: int): State {
    State(s.l[addr := i],
          s.addrs,
          s.lastAccessedAt[addr := now],
          if i == map[] then Without(s.queue, {addr}) + [addr] else s.queue)
  }

  /** LockedMap.Set: a value that is not made leaves the one there is. */
  function SetLimiter(i: Limiters, handler: string, created: bool, hint: Option<string>, f: MakeLimiter)
    : (Limiters, Option<RateLimiter>)
  {
    var current := if handler in i then Some(i[handler]) else None;
    var made := f(current, created, hint);
    if made.Some? then (i[handler := made.value], made) else (i, current)
  }

  function Expired(s: State, expire: int, seen: set<string>): set<string> {
    set a | a in s.lastAccessedAt && s.lastAccessedAt[a] < expire && a in seen
  }

  /** The longest end of the queue that is allowed. */
  function Kept(queue: seq<string>, maxAddrs: nat): seq<string> {
    if |queue| <= maxAddrs then queue else queue[|queue| - maxAddrs..]
  }

  function Evicted(queue: seq<string>, maxAddrs: nat): seq<string> {
    if |queue| <= maxAddrs then [] else queue[..|queue| - maxAddrs]
  }

  /** Addresses taken from the front of the queue; the empty one is not taken from the maps. */
  function ShrinkQueueSpec(s: State, maxAddrs: nat): State {
    TakeOut(s, ToSet(Evicted(s.queue, maxAddrs)) - {""}, Kept(s.queue, maxAddrs))
  }

  function ShrinkSpec(s: State, expire: int, seen: set<string>, maxAddrs: nat): State {
    ShrinkQueueSpec(RemoveAll(s, Expired(s, expire, seen)), maxAddrs)
  }

  // ---------------------------------------------------------------- agreement

  lemma RemoveAllAgrees(s: State, out: set<string>)
    requires Agree(s)
    ensures Agree(RemoveAll(s, out))
  {
    WithoutDistinct(s.queue, out);
  }

  lemma AddNodeAgrees(s: State, addr: string, node: string, now: int)
    requires Agree(s)
    ensures Agree(AddNodeSpec(s, addr, node, now).0)
  {
  }

  lemma ToTheEnd(queue: seq<string>, addr: string)
    requires Distinct(queue)
    ensures Distinct(Without(queue, {addr}) + [addr])
    ensures ToSet(Without(queue, {addr}) + [addr]) == ToSet(queue) + {addr}
  {
    WithoutDistinct(queue, {addr});
    PushBack(Without(queue, {addr}), addr);
    assert ToSet(Without(queue, {addr})) == ToSet(queue) - {addr};
  }

  lemma AccessAgrees(s: State, addr: string, handler: string, node: Option<string>, f: MakeLimiter, now: int)
    requires Agree(s)
    ensures Agree(AccessSpec(s, addr, handler, node, f, now).0)
    ensures AccessSpec(s, addr, handler, node, f, now).0.l.Keys == s.l.Keys + {addr}
  {
    ToTheEnd(s.queue, addr);
    var s' := AccessSpec(s, addr, handler, node, f, now).0;
    assert s'.l.Keys == s.l.Keys + {addr};
    assert s'.lastAccessedAt.Keys == s.lastAccessedAt.Keys + {addr};
    assert ToSet(s'.queue) == ToSet(s.queue) + {addr};
  }

  lemma SplitQueue(queue: seq<string>, maxAddrs: nat)
    requires Distinct(queue)
    ensures Evicted(queue, maxAddrs) + Kept(queue, maxAddrs) == queue
    ensures ToSet(Evicted(queue, maxAddrs)) !! ToSet(Kept(queue, maxAddrs))
    ensures ToSet(Evicted(queue, maxAddrs)) + ToSet(Kept(queue, maxAddrs)) == ToSet(queue)
    ensures Distinct(Kept(queue, maxAddrs)) && Distinct(Evicted(queue, maxAddrs))
    ensures |Kept(queue, maxAddrs)| <= maxAddrs
  {
    var e, k := Evicted(queue, maxAddrs), Kept(queue, maxAddrs);
    assert queue == e + k;
    assert forall x :: x in queue <==> x in e || x in k;
  }

  /** Evicting by count keeps the agreement exactly if the empty address is not among the evicted. */
  lemma ShrinkQueueAgreesIff(s: State, maxAddrs: nat)
    requires Agree(s)
    ensures Agree(ShrinkQueueSpec(s, maxAddrs)) <==> "" !in Evicted(s.queue, maxAddrs)
  {
    SplitQueue(s.queue, maxAddrs);
    var e, k := ToSet(Evicted(s.queue, maxAddrs)), ToSet(Kept(s.queue, maxAddrs));
    assert ToSet(s.queue) - e == k;
    var s' := ShrinkQueueSpec(s, maxAddrs);
    if "" in e {
      assert "" in s'.l && "" !in k;
    } else {
      assert e - {""} == e;
      assert s'.l.Keys == k;
    }
  }

  lemma NoEmptyEvicted(s: State, maxAddrs: nat)
    requires Agree(s) && "" !in s.l
    ensures "" !in Evicted(s.queue, maxAddrs)
    ensures ToSet(Evicted(s.queue, maxAddrs)) - {""} == ToSet(Evicted(s.queue, maxAddrs))
  {
    SplitQueue(s.queue, maxAddrs);
    assert "" !in ToSet(s.queue);
    assert "" !in ToSet(Evicted(s.queue, maxAddrs));
  }

  lemma ShrinkQueueKeeps(s: State, maxAddrs: nat)
    requires Agree(s) && "" !in s.l
    ensures var s' := ShrinkQueueSpec(s, maxAddrs);
      && Agree(s')
      && |s'.l| == |s'.queue| <= maxAddrs
      && |ToSet(Evicted(s.queue, maxAddrs)) - {""}| == |s.queue| - |s'.queue|
  {
    NoEmptyEvicted(s, maxAddrs);
    ShrinkQueueAgreesIff(s, maxAddrs);
    SizeOfAgreeing(ShrinkQueueSpec(s, maxAddrs));
    SplitQueue(s.queue, maxAddrs);
    DistinctCard(Evicted(s.queue, maxAddrs));
  }

  /**
   * Shrinking keeps the agreement, leaves at most `maxAddrs` addresses, and keeps of those that
   * are not expired the ones created last, in their order.
   */
  lemma ShrinkAgrees(s: State, expire: int, seen: set<string>, maxAddrs: nat)
    requires Agree(s) && "" !in s.l
    ensures var s' := ShrinkSpec(s, expire, seen, maxAddrs);
      && Agree(s')
      && |s'.l| <= maxAddrs
      && s'.queue == Kept(Without(s.queue, Expired(s, expire, seen)), maxAddrs)
  {
    RemoveAllAgrees(s, Expired(s, expire, seen));
    ShrinkQueueKeeps(RemoveAll(s, Expired(s, expire, seen)), maxAddrs);
  }

  /** Shrinking only takes addresses away. */
  lemma ShrinkOnlyRemoves(s: State, expire: int, seen: set<string>, maxAddrs: nat)
    ensures var s' := ShrinkSpec(s, expire, seen, maxAddrs);
      && s'.l.Keys <= s.l.Keys && (forall a :: a in s'.l ==> s'.l[a] == s.l[a])
      && s'.addrs.Keys <= s.addrs.Keys && (forall a :: a in s'.addrs ==> s'.addrs[a] == s.addrs[a])
  {
  }

  lemma SizeOfAgreeing(s: State)
    requires Agree(s)
    ensures |s.l| == |s.queue|
  {
    DistinctCard(s.queue);
    assert |s.l| == |s.l.Keys|;
  }

  // ---------------------------------------------------------------- runs

  datatype Op =
    | OpAccess(addr: string, handler: string, node: Option<string>, f: MakeLimiter, now: int)
    | OpAddNode(addr: string, name: string, now: int)
    | OpRemove(addr: string)
    | OpShrink(expire: int, seen: set<string>, maxAddrs: nat)

  function Step(s: State, op: Op): State {
    match op
    case OpAccess(addr, handler, node, f, now) => AccessSpec(s, addr, handler, node, f, now).0
    case OpAddNode(addr, name, now) => AddNodeSpec(s, addr, name, now).0
    case OpRemove(addr) => RemoveAll(s, {addr})
    case OpShrink(expire, seen, maxAddrs) => ShrinkSpec(s, expire, seen, maxAddrs)
  }

  function Run(s: State, ops: seq<Op>): State
    decreases ops
  {
    if ops == [] then s else Run(Step(s, ops[0]), ops[1..])
  }

  ghost predicate NonEmptyAddrs(ops: seq<Op>) {
    forall op :: op in ops && op.OpAccess? ==> op.addr != ""
  }

  lemma StepAgrees(s: State, op: Op)
    requires Agree(s) && "" !in s.l && (op.OpAccess? ==> op.addr != "")
    ensures Agree(Step(s, op)) && "" !in Step(s, op).l
  {
    match op {
      case OpAccess(addr, handler, node, f, now) => AccessAgrees(s, addr, handler, node, f, now);
      case OpAddNode(addr, name, now) => AddNodeAgrees(s, addr, name, now);
      case OpRemove(addr) => RemoveAllAgrees(s, {addr});
      case OpShrink(expire, seen, maxAddrs) =>
        ShrinkAgrees(s, expire, seen, maxAddrs);
        ShrinkOnlyRemoves(s, expire, seen, maxAddrs);
    }
  }

  /** With non-empty addresses the indexes agree after every run. */
  lemma {:induction false} RunAgrees(s: State, ops: seq<Op>)
    requires Agree(s) && "" !in s.l && NonEmptyAddrs(ops)
    ensures Agree(Run(s, ops)) && "" !in Run(s, ops).l
    decreases ops
  {
    if ops != [] {
      StepAgrees(s, ops[0]);
      RunAgrees(Step(s, ops[0]), ops[1..]);
    }
  }

  // ---------------------------------------------------------------- what later calls observe

  /** The limiters of an address by now. */
  function LimitersOf(s: State, addr: string): Limiters {
    if addr in s.l then s.l[addr] else map[]
  }

  function LimiterOf(s: State, addr: string, handler: string): Option<RateLimiter> {
    var i := LimitersOf(s, addr);
    if handler in i then Some(i[handler]) else None
  }

  function NodeOf(s: State, addr: string, hint: Option<string>): Option<string> {
    if addr in s.addrs then Some(s.addrs[addr]) else hint
  }

  /**
   * An access asks for a limiter with the one there is, with whether the address has none at all
   * so far, and with the node that is known. What is made is kept and returned, or else what there is.
   * All other limiters and all nodes stay, and only this address is accessed.
   */
  lemma AccessObserved(s: State, addr: string, handler: string, node: Option<string>, f: MakeLimiter, now: int,
                       other: string, otherHandler: string)
    ensures var (s', limiter) := AccessSpec(s, addr, handler, node, f, now);
      var current := LimiterOf(s, addr, handler);
      var made := f(current, LimitersOf(s, addr) == map[], NodeOf(s, addr, node));
      && limiter == (if made.Some? then made else current)
      && LimiterOf(s', addr, handler) == limiter
      && ((other, otherHandler) != (addr, handler) ==>
            LimiterOf(s', other, otherHandler) == LimiterOf(s, other, otherHandler))
      && s'.addrs == s.addrs
      && addr in s'.lastAccessedAt && s'.lastAccessedAt[addr] == now
      && (other != addr ==>
            && (other in s'.lastAccessedAt <==> other in s.lastAccessedAt)
            && (other in s.lastAccessedAt ==> s'.lastAccessedAt[other] == s.lastAccessedAt[other]))
  {
  }

  /** An address goes to the end of the queue exactly if it has no limiters; the others keep their order. */
  lemma AccessQueued(s: State, addr: string, handler: string, node: Option<string>, f: MakeLimiter, now: int)
    requires Agree(s)
    ensures var q, q' := s.queue, AccessSpec(s, addr, handler, node, f, now).0.queue;
      if LimitersOf(s, addr) != map[] then q' == q
      else q' != [] && q'[|q'| - 1] == addr && Without(q', {addr}) == Without(q, {addr})
  {
    var kept := Without(s.queue, {addr});
    WithoutSnoc(kept, addr);
    WithoutTwice(s.queue, {addr}, {addr});
    assert {addr} + {addr} == {addr};
  }

  lemma {:induction false} WithoutSnoc(queue: seq<string>, addr: string)
    ensures Without(queue + [addr], {addr}) == Without(queue, {addr})
  {
    if queue == [] {
      assert [addr][1..] == [];
    } else {
      WithoutSnoc(queue[1..], addr);
      assert (queue + [addr])[1..] == queue[1..] + [addr];
    }
  }

  /** An address expires exactly by its last access, if its shard is visited. */
  lemma ExpiresByAccess(s: State, addr: string, handler: string, node: Option<string>, f: MakeLimiter, now: int,
                        expire: int, seen: set<string>)
    ensures var s' := AccessSpec(s, addr, handler, node, f, now).0;
      && (addr in Expired(s', expire, seen) <==> now < expire && addr in seen)
      && Expired(s', expire, seen) - {addr} == Expired(s, expire, seen) - {addr}
  {
  }

  /** A node is recorded once, for an address that is there, which counts as an access; nothing else changes. */
  lemma AddNodeObserved(s: State, addr: string, name: string, now: int, other: string)
    ensures var (s', created) := AddNodeSpec(s, addr, name, now);
      && (created <==> addr in s.l && addr !in s.addrs)
      && (!created ==> s' == s)
      && (created ==>
            && s'.l == s.l && s'.queue == s.queue
            && NodeOf(s', addr, None) == Some(name) && addr in s'.lastAccessedAt && s'.lastAccessedAt[addr] == now
            && s'.addrs - {addr} == s.addrs - {addr} && s'.lastAccessedAt - {addr} == s.lastAccessedAt - {addr})
  {
  }

  /** Removing takes exactly these addresses out of everything, and changes nothing about the others. */
  lemma RemovedExactly(s: State, out: set<string>, addr: string)
    ensures var s' := RemoveAll(s, out);
      && (addr in s'.l <==> addr in s.l && addr !in out) && (addr in s'.l ==> s'.l[addr] == s.l[addr])
      && (addr in s'.addrs <==> addr in s.addrs && addr !in out) && (addr in s'.addrs ==> s'.addrs[addr] == s.addrs[addr])
      && (addr in s'.lastAccessedAt <==> addr in s.lastAccessedAt && addr !in out)
      && (addr in s'.lastAccessedAt ==> s'.lastAccessedAt[addr] == s.lastAccessedAt[addr])
      && (addr in s'.queue <==> addr in s.queue && addr !in out)
  {
  }

  // ---------------------------------------------------------------- the empty address

  const EMPTY := State(map[], map[], map[], [])

  /** An empty address that was let in is left behind in the maps when the queue drops it. */
  lemma EmptyAddressLeftBehind(access: Op, shrink: Op)
    requires access.OpAccess? && access.addr == ""
    requires shrink.OpShrink? && shrink.seen == {} && shrink.maxAddrs == 0
    ensures Agree(Run(EMPTY, [access]))
    ensures !Agree(Run(EMPTY, [access, shrink])) && "" in Run(EMPTY, [access, shrink]).l
  {
    RunTwo(EMPTY, access, shrink);
    EmptyIsLetIn(access);
    EmptyIsNotTaken(Step(EMPTY, access), shrink);
  }

  lemma RunTwo(s: State, a: Op, b: Op)
    ensures Run(s, [a]) == Step(s, a)
    ensures Run(s, [a, b]) == Step(Step(s, a), b)
  {
    assert [a][1..] == [] && [a, b][1..] == [b] && [b][1..] == [];
    assert Run(s, [a, b]) == Run(Step(s, a), [b]) == Run(Step(Step(s, a), b), []);
  }

  lemma EmptyIsLetIn(access: Op)
    requires access.OpAccess? && access.addr == ""
    ensures Agree(Step(EMPTY, access)) && Step(EMPTY, access).queue == [""]
  {
    AccessAgrees(EMPTY, "", access.handler, access.node, access.f, access.now);
    assert Without([], {""}) == [];
  }

  lemma EmptyIsNotTaken(s: State, shrink: Op)
    requires Agree(s) && s.queue == [""]
    requires shrink.OpShrink? && shrink.seen == {} && shrink.maxAddrs == 0
    ensures !Agree(Step(s, shrink)) && "" in Step(s, shrink).l
  {
    assert "" in ToSet(s.queue);
    assert Evicted(s.queue, 0) == [""];
    assert Expired(s, shrink.expire, {}) == {};
    assert Without(s.queue, {}) == s.queue;
    assert RemoveAll(s, {}) == s;
    ShrinkQueueAgreesIff(s, 0);
  }

  // ---------------------------------------------------------------- the pool

  class AddrPool {
    var l: map<string, Limiters>
    var addrs: map<string, string>
    var lastAccessedAt: map<string, int>
    const addrsQueue: RateLimitAddrsQueue
    /** The shard of an address. */
    const shardOf: string -> nat

    function Abs(): State
      reads this, addrsQueue
    {
      State(l, addrs, lastAccessedAt, addrsQueue.Contents())
    }

    ghost predicate Valid()
      reads this, addrsQueue
    {
      addrsQueue.Valid()
    }

    constructor (shardOf: string -> nat)
      ensures Valid() && fresh(addrsQueue)
      ensures Abs() == EMPTY && Agree(Abs())
    {
      l, addrs, lastAccessedAt := map[], map[], map[];
      addrsQueue := new RateLimitAddrsQueue();
      this.shardOf := shardOf;
    }

    method AddNode(addr: string, node: string, now: int) returns (created: bool)
      requires Valid()
      modifies this
      ensures Valid()
      ensures (Abs(), created) == AddNodeSpec(old(Abs()), addr, node, now)
    {
      created := false;
      if addr in l {
        if addr !in addrs {
          lastAccessedAt := lastAccessedAt[addr := now];
          addrs := addrs[addr := node];
          created := true;
        }
      }
    }

    /** The address is accessed; it is new if it has no limiters, and then goes to the end of the queue. */
    method Touch(addr: string, now: int) returns (i: Limiters, created: bool)
      requires Valid()
      modifies this, addrsQueue
      ensures Valid()
      ensures i == (if addr in old(l) then old(l)[addr] else map[])
      ensures Abs() == Accessed(old(Abs()), addr, i, now)
      ensures created == (i == map[])
    {
      if addr !in l {
        l := l[addr := map[]];
      }
      i := l[addr];
      lastAccessedAt := lastAccessedAt[addr := now];
      created := false;
      if |i| < 1 {
        created := true;
        addrsQueue.Add(addr);
      }
      assert l == old(l)[addr := i];
    }

    method GetRateLimiter(addr: string, handler: string, hintNode: Option<string>, f: MakeLimiter, now: int)
      returns (limiter: Option<RateLimiter>)
      requires Valid()
      modifies this, addrsQueue
      ensures Valid()
      ensures (Abs(), limiter) == AccessSpec(old(Abs()), addr, handler, hintNode, f, now)
    {
      var i, created := Touch(addr, now);
      var hint := hintNode;
      if addr in addrs {
        hint := Some(addrs[addr]);
      }
      var (i', lim) := SetLimiter(i, handler, created, hint, f);
      limiter := lim;
      ghost var touched := Abs();
      UpdateTwice(old(l), addr, i, i');
      l := l[addr := i'];
      assert Abs() == touched.(l := l);
    }

    method Remove(addr: string) returns (removed: bool)
      requires Valid()
      modifies this, addrsQueue
      ensures Valid()
      ensures Abs() == RemoveAll(old(Abs()), {addr})
      ensures removed <==> addr in old(l)
    {
      lastAccessedAt := lastAccessedAt - {addr};
      addrs := addrs - {addr};
      var inQueue := addrsQueue.Remove(addr);
      removed := addr in l;
      l := l - {addr};
    }

    /** Removes the addresses that were gathered from one shard. */
    method RemoveGathered(gathered: set<string>)
      requires Valid()
      modifies this, addrsQueue
      ensures Valid()
      ensures Abs() == RemoveAll(old(Abs()), gathered)
    {
      var rest := gathered;
      ghost var done: set<string> := {};
      RemoveNothing(Abs());
      while rest != {}
        invariant Valid()
        invariant rest !! done && rest + done == gathered
        invariant Abs() == RemoveAll(old(Abs()), done)
        decreases rest
      {
        var a :| a in rest;
        var removed := Remove(a);
        RemoveMore(old(Abs()), done, {a});
        rest, done := rest - {a}, done + {a};
      }
      assert done == gathered;
    }

    /** `upto` is the number of shards that are visited before the context is done. */
    method ShrinkExpired(expire: int, upto: nat) returns (removed: nat)
      requires Valid()
      modifies this, addrsQueue
      ensures Valid()
      ensures Abs() == RemoveAll(old(Abs()), ExpiredBelow(old(lastAccessedAt), expire, shardOf, upto))
      ensures removed == |ExpiredBelow(old(lastAccessedAt), expire, shardOf, upto)|
    {
      removed := 0;
      ghost var done := ExpiredBelow(lastAccessedAt, expire, shardOf, 0);
      assert done == {};
      RemoveNothing(Abs());
      for shard := 0 to upto
        invariant Valid()
        invariant done == ExpiredBelow(old(lastAccessedAt), expire, shardOf, shard)
        invariant Abs() == RemoveAll(old(Abs()), done)
        invariant removed == |done|
      {
        var gathered := set a | a in lastAccessedAt && lastAccessedAt[a] < expire && shardOf(a) == shard;
        OneMoreShard(old(lastAccessedAt), expire, shardOf, shard, gathered);
        RemoveGathered(gathered);
        removed := removed + |gathered|;
        RemoveMore(old(Abs()), done, gathered);
        done := done + gathered;
      }
    }

    /** Takes the front of the queue and removes its address from the maps, unless it is empty. */
    method EvictFront() returns (removed: bool)
      requires Valid() && addrsQueue.Contents() != []
      modifies this, addrsQueue
      ensures Valid()
      ensures var addr := old(addrsQueue.Contents())[0];
        && (addr == "" ==> Abs() == old(Abs()).(queue := old(addrsQueue.Contents())[1..]))
        && (addr != "" ==> Abs() == RemoveAll(old(Abs()), {addr}))
        && (removed <==> addr != "" && addr in old(l))
    {
      WithoutOne(addrsQueue.Contents(), 0);
      var addr := addrsQueue.Pop();
      if |addr| < 1 {
        return false;
      }
      WithoutTwice(old(addrsQueue.Contents()), {addr}, {addr});
      removed := Remove(addr);
    }

    /** From any state; what is counted are the addresses that had limiters. */
    method ShrinkAddrsQueue(maxAddrs: nat) returns (removed: nat)
      requires Valid()
      modifies this, addrsQueue
      ensures Valid()
      ensures Abs() == ShrinkQueueSpec(old(Abs()), maxAddrs)
      ensures removed == |Counted(old(Abs()), Evicted(old(addrsQueue.Contents()), maxAddrs))|
    {
      removed := 0;
      ghost var s := Abs();
      ghost var k := 0;
      EvictNone(s);
      var n := addrsQueue.Len();
      while n > maxAddrs
        invariant Valid()
        invariant k <= |s.queue| && n == |s.queue| - k && (k > 0 ==> n >= maxAddrs)
        invariant Abs() == EvictTo(s, k)
        invariant removed == |Counted(s, s.queue[..k])|
        decreases n
      {
        EvictOneMore(s, k);
        CountOneMore(s, k);
        var found := EvictFront();
        if found {
          removed := removed + 1;
        }
        k := k + 1;
        n := addrsQueue.Len();
      }
    }

    /** From any state; what it means for the indexes is ShrinkMeans. */
    method Shrink(expire: int, upto: nat, maxAddrs: nat) returns (removed: nat)
      requires Valid()
      modifies this, addrsQueue
      ensures Valid()
      ensures Abs() == ShrinkSpec(old(Abs()), expire, SeenBelow(old(lastAccessedAt), shardOf, upto), maxAddrs)
      ensures removed == ShrinkCount(old(Abs()), expire, SeenBelow(old(lastAccessedAt), shardOf, upto), maxAddrs)
      ensures ShrinkMeans(old(Abs()), Abs(), removed, maxAddrs)
    {
      ghost var s, seen := Abs(), SeenBelow(lastAccessedAt, shardOf, upto);
      ExpiredAreSeen(s, expire, shardOf, upto);
      removed := ShrinkExpired(expire, upto);
      assert Abs() == RemoveAll(s, Expired(s, expire, seen));
      var n := ShrinkAddrsQueue(maxAddrs);
      removed := removed + n;
      ShrinkMeaning(s, expire, seen, maxAddrs);
    }
  }

  /** At most `maxAddrs` stay; indexes that agreed before are counted right, and agree without the empty address. */
  ghost predicate ShrinkMeans(s: State, s': State, removed: nat, maxAddrs: nat) {
    && |s'.queue| <= maxAddrs
    && (Agree(s) ==> removed == |s.l| - |s'.l|)
    && (Agree(s) && "" !in s.l ==> Agree(s') && |s'.l| <= maxAddrs)
  }

  lemma ShrinkMeaning(s: State, expire: int, seen: set<string>, maxAddrs: nat)
    ensures ShrinkMeans(s, ShrinkSpec(s, expire, seen, maxAddrs), ShrinkCount(s, expire, seen, maxAddrs), maxAddrs)
  {
    if Agree(s) {
      ShrinkCounts(s, expire, seen, maxAddrs);
      if "" !in s.l {
        ShrinkAgrees(s, expire, seen, maxAddrs);
      }
    }
  }

  /** What an eviction counts: addresses that are not empty and have limiters. */
  function Counted(s: State, evicted: seq<string>): set<string> {
    (ToSet(evicted) - {""}) * s.l.Keys
  }

  function ShrinkCount(s: State, expire: int, seen: set<string>, maxAddrs: nat): nat {
    var out := Expired(s, expire, seen);
    |out| + |Counted(RemoveAll(s, out), Evicted(Without(s.queue, out), maxAddrs))|
  }

  lemma UpdateTwice<V>(m: map<string, V>, k: string, v: V, w: V)
    ensures m[k := v][k := w] == m[k := w]
  {
  }

  /** The addresses of the first `upto` shards. */
  function SeenBelow(at: map<string, int>, shardOf: string -> nat, upto: nat): set<string> {
    set a | a in at && shardOf(a) < upto
  }

  function ExpiredBelow(at: map<string, int>, expire: int, shardOf: string -> nat, upto: nat): set<string> {
    set a | a in at && at[a] < expire && shardOf(a) < upto
  }

  lemma ExpiredAreSeen(s: State, expire: int, shardOf: string -> nat, upto: nat)
    ensures ExpiredBelow(s.lastAccessedAt, expire, shardOf, upto) ==
            Expired(s, expire, SeenBelow(s.lastAccessedAt, shardOf, upto))
  {
  }

  lemma OneMoreShard(at: map<string, int>, expire: int, shardOf: string -> nat, shard: nat, gathered: set<string>)
    requires gathered ==
             set a | a in at - ExpiredBelow(at, expire, shardOf, shard) && at[a] < expire && shardOf(a) == shard
    ensures ExpiredBelow(at, expire, shardOf, shard) !! gathered
    ensures ExpiredBelow(at, expire, shardOf, shard + 1) == ExpiredBelow(at, expire, shardOf, shard) + gathered
  {
  }

  /** After `k` addresses were taken from the queue. */
  ghost function EvictTo(s: State, k: nat): State
    requires k <= |s.queue|
  {
    TakeOut(s, ToSet(s.queue[..k]) - {""}, s.queue[k..])
  }

  lemma EvictNone(s: State)
    ensures EvictTo(s, 0) == s
  {
    assert ToSet(s.queue[..0]) == {};
  }

  lemma EvictedSets(s: State, k: nat)
    requires Distinct(s.queue) && k < |s.queue|
    ensures var addr, a, b := s.queue[k], ToSet(s.queue[..k]) - {""}, ToSet(s.queue[..k + 1]) - {""};
      && addr !in a
      && (if addr == "" then b == a else b == a + {addr})
  {
    TakeOneMore(s, k);
  }

  /** The next address counts if it is not empty and still has limiters. */
  lemma CountOneMore(s: State, k: nat)
    requires Distinct(s.queue) && k < |s.queue|
    ensures var addr := s.queue[k];
      |Counted(s, s.queue[..k + 1])| ==
      |Counted(s, s.queue[..k])| + if addr != "" && addr in EvictTo(s, k).l then 1 else 0
  {
    EvictedSets(s, k);
    CountSets(ToSet(s.queue[..k]) - {""}, ToSet(s.queue[..k + 1]) - {""}, s.l.Keys, s.queue[k]);
  }

  lemma CountSets(a: set<string>, b: set<string>, keys: set<string>, addr: string)
    requires addr !in a && b == if addr == "" then a else a + {addr}
    ensures |b * keys| == |a * keys| + if addr != "" && addr in keys then 1 else 0
  {
    assert b * keys == if addr != "" && addr in keys then a * keys + {addr} else a * keys;
  }

  lemma EvictOneMore(s: State, k: nat)
    requires Distinct(s.queue) && k < |s.queue|
    ensures EvictStep(EvictTo(s, k), EvictTo(s, k + 1), s.queue[k])
  {
    TakeOneMore(s, k);
    EvictedSets(s, k);
    EvictSteps(s, k, ToSet(s.queue[..k]) - {""}, ToSet(s.queue[..k + 1]) - {""});
  }

  /** Taking `addr` from the front of the queue, and from the maps unless it is empty. */
  ghost predicate EvictStep(s: State, s': State, addr: string) {
    && s.queue != [] && s.queue[0] == addr
    && (addr == "" ==> s' == s.(queue := s.queue[1..]))
    && (addr != "" ==> s' == RemoveAll(s, {addr}))
  }

  lemma EvictSteps(s: State, k: nat, a: set<string>, b: set<string>)
    requires k < |s.queue| && s.queue[k] !in a
    requires b == if s.queue[k] == "" then a else a + {s.queue[k]}
    requires Without(s.queue[k + 1..], {s.queue[k]}) == s.queue[k + 1..]
    ensures EvictStep(TakeOut(s, a, s.queue[k..]), TakeOut(s, b, s.queue[k + 1..]), s.queue[k])
  {
    var addr := s.queue[k];
    assert s.queue[k..][0] == addr && s.queue[k..][1..] == s.queue[k + 1..];
    EvictOneMap(s.l, a, addr);
    EvictOneMap(s.addrs, a, addr);
    EvictOneMap(s.lastAccessedAt, a, addr);
  }

  lemma EvictOneMap<V>(m: map<string, V>, a: set<string>, addr: string)
    ensures m - (a + {addr}) == m - a - {addr}
  {
  }

  /** The two counts of a shrink add up to the number of addresses that are gone. */
  lemma ShrinkCounts(s: State, expire: int, seen: set<string>, maxAddrs: nat)
    requires Agree(s)
    ensures ShrinkCount(s, expire, seen, maxAddrs) == |s.l| - |ShrinkSpec(s, expire, seen, maxAddrs).l|
  {
    var out := Expired(s, expire, seen);
    var s1 := RemoveAll(s, out);
    RemoveAllAgrees(s, out);
    SplitQueue(s1.queue, maxAddrs);
    var evicted := ToSet(Evicted(s1.queue, maxAddrs)) - {""};
    assert evicted <= s1.l.Keys && Counted(s1, Evicted(s1.queue, maxAddrs)) == evicted;
    KeysLeft(s1.l, evicted);
    KeysLeft(s.l, out);
  }

  lemma KeysLeft<V>(m: map<string, V>, out: set<string>)
    requires out <= m.Keys
    ensures |m - out| == |m| - |out|
  {
    assert (m - out).Keys == m.Keys - out;
    assert |m.Keys - out| == |m.Keys| - |out|;
  }

  lemma RemoveNothing(s: State)
    ensures RemoveAll(s, {}) == s
  {
    WithoutNone(s.queue, {});
  }

  lemma RemoveMore(s: State, a: set<string>, b: set<string>)
    ensures RemoveAll(RemoveAll(s, a), b) == RemoveAll(s, a + b)
  {
    WithoutTwice(s.queue, a, b);
  }

  lemma TakeOneMore(s: State, k: nat)
    requires Distinct(s.queue) && k < |s.queue|
    ensures ToSet(s.queue[..k + 1]) == ToSet(s.queue[..k]) + {s.queue[k]}
    ensures s.queue[k] !in ToSet(s.queue[..k])
    ensures Without(s.queue[k + 1..], {s.queue[k]}) == s.queue[k + 1..]
  {
    assert s.queue[..k + 1] == s.queue[..k] + [s.queue[k]];
    WithoutNone(s.queue[k + 1..], {s.queue[k]});
  }
}
