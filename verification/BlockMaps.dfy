/** Checking that block maps form one linked chain (base/block.go, util/worker.go). */
module BlockMaps {
  import opened Wrappers
  import opened Points

  /** A block map, as far as its manifest links it to others. */
  datatype BlockMap = BlockMap(height: int, hash: string, previous: string)

  predicate IsValidManifests(m: BlockMap, previous: string) {
    m.previous == previous
  }

  function HeightOf(m: Option<BlockMap>): int {
    if m.Some? then m.value.height else NIL_HEIGHT
  }

  // ---------------------------------------------------------------- one delivery

  type Slots = seq<Option<BlockMap>>

  /** Putting a map into its slot, and whether it links to the neighbours that are there. */
  function Deliver(slots: Slots, m: BlockMap, previous: Option<BlockMap>): (r: (Slots, bool))
    ensures |r.0| == |slots|
  {
    var index := m.height - HeightOf(previous) - 1;
    if index < 0 || index >= |slots| then (slots, false)
    else
      var s := slots[index := Some(m)];
      (s,
       && (if index == 0 then
             m.height == GENESIS_HEIGHT || IsValidManifests(m, previous.value.hash)
           else
             s[index - 1].Some? ==> IsValidManifests(m, s[index - 1].value.hash))
       && (index + 1 < |s| && s[index + 1].Some? ==> IsValidManifests(s[index + 1].value, m.hash)))
  }

  method IsValidMaps(m: BlockMap, maps: array<Option<BlockMap>>, previous: Option<BlockMap>) returns (ok: bool)
    modifies maps
    ensures (maps[..], ok) == Deliver(old(maps[..]), m, previous)
  {
    var prev := NIL_HEIGHT;
    if previous.Some? {
      prev := previous.value.height;
    }
    var index := m.height - prev - 1;
    if index < 0 || index >= maps.Length {
      return false;
    }
    maps[index] := Some(m);
    if index == 0 && m.height == GENESIS_HEIGHT {
    } else if index == 0 && m.height != GENESIS_HEIGHT {
      if !IsValidManifests(m, previous.value.hash) {
        return false;
      }
    } else if maps[index - 1].Some? {
      if !IsValidManifests(m, maps[index - 1].value.hash) {
        return false;
      }
    }
    if index + 1 < maps.Length && maps[index + 1].Some? {
      if !IsValidManifests(maps[index + 1].value, m.hash) {
        return false;
      }
    }
    return true;
  }

  // ---------------------------------------------------------------- a batch, in any order

  /** `ms` are the maps for the heights that follow `previous`. */
  predicate Consecutive(ms: seq<BlockMap>, previous: Option<BlockMap>) {
    forall i :: 0 <= i < |ms| ==> ms[i].height == HeightOf(previous) + 1 + i
  }

  predicate LinkAt(ms: seq<BlockMap>, previous: Option<BlockMap>, i: int)
    requires 0 <= i < |ms|
  {
    if i == 0 then
      ms[0].height == GENESIS_HEIGHT || (previous.Some? && ms[0].previous == previous.value.hash)
    else ms[i].previous == ms[i - 1].hash
  }

  /** The first map links to `previous` or is genesis, every other one to the map before it. */
  predicate Linked(ms: seq<BlockMap>, previous: Option<BlockMap>) {
    forall i :: 0 <= i < |ms| ==> LinkAt(ms, previous, i)
  }

  /** The slots once the maps of `delivered` are there. */
  function Filled(ms: seq<BlockMap>, delivered: set<int>): (s: Slots)
    ensures |s| == |ms|
  {
    seq(|ms|, i requires 0 <= i < |ms| => if i in delivered then Some(ms[i]) else None)
  }

  /** Map `i` has arrived and so has the one it links to. */
  predicate Linkable(delivered: set<int>, i: int) {
    i in delivered && (i == 0 || i - 1 in delivered)
  }

  /** All links between delivered maps hold. */
  ghost predicate LinkedWithin(ms: seq<BlockMap>, previous: Option<BlockMap>, delivered: set<int>) {
    forall i :: 0 <= i < |ms| && Linkable(delivered, i) ==> LinkAt(ms, previous, i)
  }

  /** A delivery checks exactly the links that it completes. */
  lemma DeliverChecksLinks(ms: seq<BlockMap>, previous: Option<BlockMap>, delivered: set<int>, i: int)
    requires 0 <= i < |ms| && Consecutive(ms, previous)
    ensures Deliver(Filled(ms, delivered), ms[i], previous).0 == Filled(ms, delivered + {i})
    ensures Deliver(Filled(ms, delivered), ms[i], previous).1 && LinkedWithin(ms, previous, delivered) <==>
            LinkedWithin(ms, previous, delivered + {i})
  {
    var s := Filled(ms, delivered)[i := Some(ms[i])];
    assert s == Filled(ms, delivered + {i});
    var ok := Deliver(Filled(ms, delivered), ms[i], previous).1;
    assert ok <==> (i == 0 || i - 1 in delivered ==> LinkAt(ms, previous, i))
                   && (i + 1 < |ms| && i + 1 in delivered ==> LinkAt(ms, previous, i + 1));
    var delivered' := delivered + {i};
    forall j | 0 <= j < |ms|
      ensures Linkable(delivered', j) <==>
              Linkable(delivered, j) || (j == i && (i == 0 || i - 1 in delivered')) || (j == i + 1 && j in delivered')
    {
    }
    if LinkedWithin(ms, previous, delivered') {
      assert Linkable(delivered', i) || !(i == 0 || i - 1 in delivered);
      assert i + 1 < |ms| && i + 1 in delivered ==> Linkable(delivered', i + 1);
    }
  }

  predicate InRange(order: seq<int>, n: nat) {
    forall k :: 0 <= k < |order| ==> 0 <= order[k] < n
  }

  /** Do all calls succeed when the maps arrive in this order? */
  predicate AllDelivered(slots: Slots, ms: seq<BlockMap>, previous: Option<BlockMap>, order: seq<int>)
    requires InRange(order, |ms|)
    decreases order
  {
    order == [] ||
    var r := Deliver(slots, ms[order[0]], previous);
    r.1 && AllDelivered(r.0, ms, previous, order[1..])
  }

  lemma {:induction false} DeliveriesCheckLinks(
      ms: seq<BlockMap>, previous: Option<BlockMap>, delivered: set<int>, order: seq<int>)
    requires Consecutive(ms, previous)
    requires InRange(order, |ms|)
    ensures AllDelivered(Filled(ms, delivered), ms, previous, order) && LinkedWithin(ms, previous, delivered) <==>
            LinkedWithin(ms, previous, delivered + set i | i in order)
    decreases order
  {
    var all := set i | i in order;
    if order == [] {
      assert delivered + all == delivered;
    } else {
      DeliverChecksLinks(ms, previous, delivered, order[0]);
      DeliveriesCheckLinks(ms, previous, delivered + {order[0]}, order[1..]);
      assert delivered + all == delivered + {order[0]} + set i | i in order[1..];
    }
  }

  /**
   * However the maps of a batch arrive, all calls succeed exactly if the batch is linked. It is
   * enough that every map arrives; arriving twice changes nothing.
   */
  lemma OrderDoesNotMatter(ms: seq<BlockMap>, previous: Option<BlockMap>, order: seq<int>)
    requires Consecutive(ms, previous)
    requires InRange(order, |ms|) && forall i :: 0 <= i < |ms| ==> i in order
    ensures AllDelivered(seq(|ms|, _ => None), ms, previous, order) <==> Linked(ms, previous)
  {
    assert seq(|ms|, _ => None) == Filled(ms, {});
    DeliveriesCheckLinks(ms, previous, {}, order);
    var all := set i | i in order;
    assert forall i :: 0 <= i < |ms| ==> i in all;
    if LinkedWithin(ms, previous, {} + all) {
      forall i | 0 <= i < |ms|
        ensures LinkAt(ms, previous, i)
      {
        assert Linkable({} + all, i);
      }
    }
  }

  // ---------------------------------------------------------------- batch after batch

  type Fetch = int -> Option<BlockMap>
  type Callback = BlockMap -> bool

  /** The order in which the jobs of the chunk that starts at an index finish. */
  type Orders = int -> seq<int>

  datatype Chunk = Chunk(slots: Slots, newprev: Option<BlockMap>, ok: bool)

  /** One job of the chunk of the `n` heights after `base`. */
  function JobSpec(fetch: Fetch, callback: Callback, lastprev: Option<BlockMap>, base: int, n: nat, c: Chunk, i: int)
    : Chunk
  {
    var m := fetch(base + i + 1);
    if m == None then c.(ok := false)
    else
      var (slots, linked) := Deliver(c.slots, m.value, lastprev);
      if !linked then Chunk(slots, c.newprev, false)
      else Chunk(slots, if m.value.height == base + n then m else c.newprev, callback(m.value))
  }

  /** Jobs one after the other, until one fails. */
  function JobsSpec(fetch: Fetch, callback: Callback, lastprev: Option<BlockMap>, base: int, n: nat,
                    c: Chunk, order: seq<int>): Chunk
    decreases order
  {
    if order == [] || !c.ok then c
    else JobsSpec(fetch, callback, lastprev, base, n, JobSpec(fetch, callback, lastprev, base, n, c, order[0]), order[1..])
  }

  function ChunkSpec(fetch: Fetch, callback: Callback, lastprev: Option<BlockMap>, base: int, n: nat, order: seq<int>)
    : Chunk
  {
    JobsSpec(fetch, callback, lastprev, base, n, Chunk(seq(n, _ => None), lastprev, true), order)
  }

  /** The chunks from index `i` on. */
  predicate BatchFrom(prev: Option<BlockMap>, fetch: Fetch, callback: Callback, limit: nat, size: nat, orders: Orders,
                      i: nat, lastprev: Option<BlockMap>)
    requires limit > 0
    decreases size - i
  {
    i >= size ||
    var end := Min(i + limit, size);
    var c := ChunkSpec(fetch, callback, lastprev, HeightOf(prev) + i, end - i, orders(i));
    c.ok && BatchFrom(prev, fetch, callback, limit, size, orders, end, c.newprev)
  }

  predicate BatchSpec(prev: Option<BlockMap>, to: int, limit: nat, fetch: Fetch, callback: Callback, orders: Orders)
    requires limit > 0
  {
    to > HeightOf(prev) && BatchFrom(prev, fetch, callback, limit, to - HeightOf(prev), orders, 0, prev)
  }

  /** Every job of a chunk of `n` runs. */
  predicate Order(order: seq<int>, n: nat) {
    InRange(order, n) && forall i :: 0 <= i < n ==> i in order
  }

  ghost predicate OrdersOk(orders: Orders, limit: nat, size: int) {
    forall i :: 0 <= i < size ==> Order(orders(i), Min(i + limit, size) - i)
  }

  // ---------------------------------------------------------------- the code

  /** One job: fetching a map, checking it under the lock, and the callback. */
  method RunJob(fetch: Fetch, callback: Callback, lastprev: Option<BlockMap>, base: int, n: nat,
                maps: array<Option<BlockMap>>, newprev0: Option<BlockMap>, i: int)
    returns (ok: bool, newprev: Option<BlockMap>)
    modifies maps
    ensures Chunk(maps[..], newprev, ok) ==
            JobSpec(fetch, callback, lastprev, base, n, Chunk(old(maps[..]), newprev0, true), i)
  {
    newprev := newprev0;
    var height := base + i + 1;
    var lastheight := base + n;
    var m := fetch(height);
    if m == None {
      return false, newprev;
    }
    ok := IsValidMaps(m.value, maps, lastprev);
    if !ok {
      return;
    }
    if m.value.height == lastheight {
      newprev := m;
    }
    ok := callback(m.value);
  }

  method RunChunk(fetch: Fetch, callback: Callback, lastprev: Option<BlockMap>, base: int, n: nat,
                  maps: array<Option<BlockMap>>, order: seq<int>)
    returns (ok: bool, newprev: Option<BlockMap>)
    requires maps[..] == seq(n, _ => None)
    modifies maps
    ensures Chunk(maps[..], newprev, ok) == ChunkSpec(fetch, callback, lastprev, base, n, order)
  {
    ok, newprev := true, lastprev;
    for k := 0 to |order|
      invariant ok
      invariant JobsSpec(fetch, callback, lastprev, base, n, Chunk(maps[..], newprev, true), order[k..]) ==
                ChunkSpec(fetch, callback, lastprev, base, n, order)
    {
      assert order[k..][0] == order[k] && order[k..][1..] == order[k + 1..];
      ok, newprev := RunJob(fetch, callback, lastprev, base, n, maps, newprev, order[k]);
      if !ok {
        return;
      }
    }
  }

  /** `BatchWork` splits the heights into chunks of `batchlimit`, the last one being the rest. */
  method BatchIsValidMaps(prev: Option<BlockMap>, to: int, batchlimit: nat, fetch: Fetch, callback: Callback,
                          orders: Orders)
    returns (ok: bool)
    requires batchlimit > 0
    ensures ok == BatchSpec(prev, to, batchlimit, fetch, callback, orders)
  {
    var prevheight := HeightOf(prev);
    var size := to - prevheight;
    if size < 1 {
      return false;
    }
    var newprev := prev;
    var i := 0;
    assert StartsChunk(0, size, batchlimit);
    while i < size
      invariant 0 <= i <= size && StartsChunk(i, size, batchlimit)
      invariant BatchFrom(prev, fetch, callback, batchlimit, size, orders, i, newprev) ==
                BatchSpec(prev, to, batchlimit, fetch, callback, orders)
    {
      var end := Min(i + batchlimit, size);
      NextChunk(prev, fetch, callback, batchlimit, size, orders, i, end, newprev);
      ok, newprev := RunBatch(prevheight, i, end, size, batchlimit, newprev, fetch, callback, orders(i));
      if !ok {
        return;
      }
      i := end;
    }
    return true;
  }

  lemma NextChunk(prev: Option<BlockMap>, fetch: Fetch, callback: Callback, limit: nat, size: nat, orders: Orders,
                  i: nat, end: nat, lastprev: Option<BlockMap>)
    requires limit > 0 && i < size && end == Min(i + limit, size) && StartsChunk(i, size, limit)
    ensures StartsChunk(end, size, limit)
    ensures var c := ChunkSpec(fetch, callback, lastprev, HeightOf(prev) + i, end - i, orders(i));
      BatchFrom(prev, fetch, callback, limit, size, orders, i, lastprev) <==>
      c.ok && BatchFrom(prev, fetch, callback, limit, size, orders, end, c.newprev)
  {
  }

  /** Chunks start at the multiples of `limit`. */
  predicate StartsChunk(i: nat, size: nat, limit: nat)
    requires limit > 0
  {
    i < size ==> IsMultiple(i, limit)
  }

  predicate IsMultiple(i: nat, limit: nat)
    requires limit > 0
    decreases i
  {
    i == 0 || (i >= limit && IsMultiple(i - limit, limit))
  }

  lemma {:induction false} MultipleIsProduct(i: nat, limit: nat) returns (q: nat)
    requires limit > 0 && IsMultiple(i, limit)
    ensures i == q * limit
    decreases i
  {
    q := 0;
    if i > 0 {
      var p := MultipleIsProduct(i - limit, limit);
      q := p + 1;
    }
  }

  /** Preparing and running the chunk from `i` to `end`. */
  method RunBatch(prevheight: int, i: nat, end: nat, size: nat, batchlimit: nat, lastprev: Option<BlockMap>,
                  fetch: Fetch, callback: Callback, order: seq<int>)
    returns (ok: bool, newprev: Option<BlockMap>)
    requires batchlimit > 0 && i < size && end == Min(i + batchlimit, size) && StartsChunk(i, size, batchlimit)
    ensures var c := ChunkSpec(fetch, callback, lastprev, prevheight + i, end - i, order);
      ok == c.ok && newprev == c.newprev
  {
    var maps := PrepareChunk(i, end, size, batchlimit);
    ok, newprev := RunChunk(fetch, callback, lastprev, prevheight + i, end - i, maps, order);
  }

  /** The slice for the chunk from `i` to `end` has a slot for each of its jobs. */
  method PrepareChunk(i: nat, end: nat, size: nat, batchlimit: nat) returns (maps: array<Option<BlockMap>>)
    requires batchlimit > 0 && i < size && end == Min(i + batchlimit, size) && StartsChunk(i, size, batchlimit)
    ensures fresh(maps) && maps.Length == end - i && maps[..] == seq(end - i, _ => None)
  {
    var r := end % batchlimit;
    ChunkLength(i, end, size, batchlimit);
    maps := NewSlots(if r == 0 then batchlimit else r);
  }

  method NewSlots(n: nat) returns (maps: array<Option<BlockMap>>)
    ensures fresh(maps) && maps.Length == n && maps[..] == seq(n, _ => None)
  {
    maps := new Option<BlockMap>[n](_ => None);
    assert maps[..] == seq(n, _ => None);
  }

  /** The length that the preparation of a chunk computes is the number of its jobs. */
  lemma ChunkLength(i: nat, end: nat, size: nat, limit: nat)
    requires limit > 0 && IsMultiple(i, limit) && i < size && end == Min(i + limit, size)
    ensures end - i == if end % limit == 0 then limit else end % limit
  {
    var q := MultipleIsProduct(i, limit);
    if end == i + limit {
      assert end == (q + 1) * limit;
      ModUnique(end, limit, q + 1, 0);
    } else {
      ModUnique(end, limit, q, end - i);
    }
  }

  lemma ModUnique(x: nat, d: nat, q: nat, r: nat)
    requires d > 0 && x == q * d + r && r < d
    ensures x % d == r
  {
    var q' := x / d;
    assert (q - q') * d == x % d - r;
    if q > q' {
      MulAtLeast(q - q', d);
    } else if q < q' {
      MulAtLeast(q' - q, d);
    }
  }

  lemma MulAtLeast(k: nat, d: nat)
    requires k >= 1
    ensures k * d >= d
  {
    assert k * d == d + (k - 1) * d;
  }

  // ---------------------------------------------------------------- what success means

  /** For the heights after `from` up to `to`, the source gives maps of the height it is asked for. */
  ghost predicate HonestIn(fetch: Fetch, from: int, to: int) {
    forall h :: from < h <= to ==> HonestAt(fetch, h)
  }

  ghost predicate HonestAt(fetch: Fetch, h: int) {
    fetch(h).Some? ==> fetch(h).value.height == h
  }

  ghost predicate Fetched(fetch: Fetch, callback: Callback, h: int) {
    fetch(h).Some? && callback(fetch(h).value)
  }

  /** The hash that the map of height `h` has to refer to. */
  ghost function HashBefore(prev: Option<BlockMap>, fetch: Fetch, h: int): Option<string> {
    var before := if h == HeightOf(prev) + 1 then prev else fetch(h - 1);
    if before.Some? then Some(before.value.hash) else None
  }

  ghost predicate LinkUp(prev: Option<BlockMap>, fetch: Fetch, h: int) {
    && fetch(h).Some?
    && (h == GENESIS_HEIGHT || HashBefore(prev, fetch, h) == Some(fetch(h).value.previous))
  }

  /** From `prev` up to height `to` the map of every height is there and refers to what is before it. */
  ghost predicate Chained(prev: Option<BlockMap>, fetch: Fetch, callback: Callback, to: int) {
    forall h :: HeightOf(prev) < h <= to ==> ChainedAt(prev, fetch, callback, h)
  }

  ghost predicate ChainedAt(prev: Option<BlockMap>, fetch: Fetch, callback: Callback, h: int) {
    Fetched(fetch, callback, h) && fetch(h).value.height == h && LinkUp(prev, fetch, h)
  }

  /** The maps of the `n` heights after `base`. */
  ghost function MapsAfter(fetch: Fetch, base: int, n: nat): (ms: seq<BlockMap>)
    ensures |ms| == n
  {
    seq(n, i requires 0 <= i < n =>
      if fetch(base + 1 + i).Some? then fetch(base + 1 + i).value else BlockMap(base + 1 + i, "", ""))
  }

  ghost predicate JobPasses(fetch: Fetch, callback: Callback, base: int, i: int) {
    Fetched(fetch, callback, base + 1 + i)
  }

  ghost predicate ChunkOk(fetch: Fetch, callback: Callback, lastprev: Option<BlockMap>, base: int, n: nat) {
    && (forall i :: 0 <= i < n ==> JobPasses(fetch, callback, base, i))
    && Linked(MapsAfter(fetch, base, n), lastprev)
  }

  /** A chunk once the jobs of `done` have succeeded. */
  ghost predicate ChunkState(fetch: Fetch, callback: Callback, lastprev: Option<BlockMap>, base: int, n: nat,
                             done: set<int>, c: Chunk) {
    && c.ok
    && c.slots == Filled(MapsAfter(fetch, base, n), done)
    && LinkedWithin(MapsAfter(fetch, base, n), lastprev, done)
    && (forall i :: i in done ==> JobPasses(fetch, callback, base, i))
    && (n - 1 in done ==> c.newprev == fetch(base + n))
  }

  lemma MapsAreConsecutive(fetch: Fetch, lastprev: Option<BlockMap>, base: int, n: nat)
    requires HonestIn(fetch, base, base + n) && HeightOf(lastprev) == base
    ensures Consecutive(MapsAfter(fetch, base, n), lastprev)
  {
    forall i | 0 <= i < n
      ensures MapsAfter(fetch, base, n)[i].height == base + 1 + i
    {
      assert HonestAt(fetch, base + 1 + i);
    }
  }

  lemma ChunkStep(fetch: Fetch, callback: Callback, lastprev: Option<BlockMap>, base: int, n: nat,
                  done: set<int>, c: Chunk, i: int)
    requires HonestIn(fetch, base, base + n) && HeightOf(lastprev) == base
    requires 0 <= i < n && ChunkState(fetch, callback, lastprev, base, n, done, c)
    ensures var c' := JobSpec(fetch, callback, lastprev, base, n, c, i);
      if c'.ok then ChunkState(fetch, callback, lastprev, base, n, done + {i}, c')
      else !ChunkOk(fetch, callback, lastprev, base, n)
  {
    var ms := MapsAfter(fetch, base, n);
    assert JobPasses(fetch, callback, base, i) <==> Fetched(fetch, callback, base + 1 + i);
    if fetch(base + 1 + i).Some? {
      MapsAreConsecutive(fetch, lastprev, base, n);
      JobOnSlots(fetch, callback, lastprev, base, n, c, i);
      LinksInChunk(ms, lastprev, done, i);
    }
  }

  /** What a job makes of a chunk when its map is the one asked for. */
  lemma JobOnSlots(fetch: Fetch, callback: Callback, lastprev: Option<BlockMap>, base: int, n: nat, c: Chunk, i: int)
    requires HonestIn(fetch, base, base + n) && 0 <= i < n && fetch(base + 1 + i).Some?
    ensures var m := MapsAfter(fetch, base, n)[i];
      var r := Deliver(c.slots, m, lastprev);
      && m == fetch(base + 1 + i).value
      && JobSpec(fetch, callback, lastprev, base, n, c, i) ==
         if r.1 then Chunk(r.0, if i == n - 1 then fetch(base + n) else c.newprev, callback(m))
         else Chunk(r.0, c.newprev, false)
  {
    assert HonestAt(fetch, base + 1 + i);
  }

  /** A failed delivery shows that the batch is not linked. */
  lemma LinksInChunk(ms: seq<BlockMap>, previous: Option<BlockMap>, done: set<int>, i: int)
    requires 0 <= i < |ms| && Consecutive(ms, previous) && LinkedWithin(ms, previous, done)
    ensures var r := Deliver(Filled(ms, done), ms[i], previous);
      && r.0 == Filled(ms, done + {i})
      && (if r.1 then LinkedWithin(ms, previous, done + {i}) else !Linked(ms, previous))
  {
    DeliverChecksLinks(ms, previous, done, i);
    if Linked(ms, previous) {
      assert LinkedWithin(ms, previous, done + {i});
    }
  }

  lemma {:induction false} ChunkSteps(
      fetch: Fetch, callback: Callback, lastprev: Option<BlockMap>, base: int, n: nat,
      done: set<int>, c: Chunk, order: seq<int>)
    requires HonestIn(fetch, base, base + n) && HeightOf(lastprev) == base
    requires InRange(order, n) && ChunkState(fetch, callback, lastprev, base, n, done, c)
    ensures var c' := JobsSpec(fetch, callback, lastprev, base, n, c, order);
      if c'.ok then ChunkState(fetch, callback, lastprev, base, n, done + (set i | i in order), c')
      else !ChunkOk(fetch, callback, lastprev, base, n)
    decreases order
  {
    var all := set i | i in order;
    if order == [] {
      assert done + all == done;
    } else {
      var c' := JobSpec(fetch, callback, lastprev, base, n, c, order[0]);
      ChunkStep(fetch, callback, lastprev, base, n, done, c, order[0]);
      if c'.ok {
        ChunkSteps(fetch, callback, lastprev, base, n, done + {order[0]}, c', order[1..]);
        assert done + all == done + {order[0]} + set i | i in order[1..];
      }
    }
  }

  /** With an honest source, the jobs of a chunk succeed in any order exactly if everything is there and linked. */
  lemma ChunkExact(fetch: Fetch, callback: Callback, lastprev: Option<BlockMap>, base: int, n: nat, order: seq<int>)
    requires HonestIn(fetch, base, base + n) && HeightOf(lastprev) == base
    requires n > 0 && Order(order, n)
    ensures var c := ChunkSpec(fetch, callback, lastprev, base, n, order);
      && (c.ok <==> ChunkOk(fetch, callback, lastprev, base, n))
      && (c.ok ==> c.newprev == fetch(base + n))
  {
    var ms, start := MapsAfter(fetch, base, n), Chunk(seq(n, _ => None), lastprev, true);
    assert start.slots == Filled(ms, {});
    ChunkSteps(fetch, callback, lastprev, base, n, {}, start, order);
    var done := {} + set i | i in order;
    assert forall i :: 0 <= i < n ==> i in done;
    if JobsSpec(fetch, callback, lastprev, base, n, start, order).ok {
      assert forall i :: 0 <= i < n ==> Linkable(done, i);
    }
  }

  /** What a chunk starting `i` heights after `prev` is linked to. */
  ghost function LastPrev(prev: Option<BlockMap>, fetch: Fetch, i: nat): Option<BlockMap> {
    if i == 0 then prev else fetch(HeightOf(prev) + i)
  }

  /** Blocks have no negative heights. */
  predicate ValidPrev(prev: Option<BlockMap>) {
    prev.Some? ==> prev.value.height >= GENESIS_HEIGHT
  }

  lemma LinksOfChunk(prev: Option<BlockMap>, fetch: Fetch, i: nat, n: nat, j: nat)
    requires ValidPrev(prev) && HonestIn(fetch, HeightOf(prev), HeightOf(prev) + i + n) && j < n
    requires i > 0 ==> fetch(HeightOf(prev) + i).Some?
    requires fetch(HeightOf(prev) + i + 1 + j).Some?
    requires j > 0 ==> fetch(HeightOf(prev) + i + j).Some?
    ensures LinkAt(MapsAfter(fetch, HeightOf(prev) + i, n), LastPrev(prev, fetch, i), j) <==>
            LinkUp(prev, fetch, HeightOf(prev) + i + 1 + j)
  {
    assert HonestAt(fetch, HeightOf(prev) + i + 1 + j);
  }

  /** A chain reaches one chunk further exactly if the chunk is linked to its end. */
  lemma ChainByChunk(prev: Option<BlockMap>, fetch: Fetch, callback: Callback, i: nat, n: nat)
    requires ValidPrev(prev) && HonestIn(fetch, HeightOf(prev), HeightOf(prev) + i + n) && n > 0
    requires Chained(prev, fetch, callback, HeightOf(prev) + i)
    ensures HeightOf(LastPrev(prev, fetch, i)) == HeightOf(prev) + i
    ensures ChunkOk(fetch, callback, LastPrev(prev, fetch, i), HeightOf(prev) + i, n) <==>
            Chained(prev, fetch, callback, HeightOf(prev) + i + n)
  {
    var base := HeightOf(prev) + i;
    assert i > 0 ==> ChainedAt(prev, fetch, callback, base);
    if ChunkOk(fetch, callback, LastPrev(prev, fetch, i), base, n) {
      ChunkIsChain(prev, fetch, callback, i, n);
    }
    if Chained(prev, fetch, callback, base + n) {
      ChainIsChunk(prev, fetch, callback, i, n);
    }
  }

  lemma ChunkIsChain(prev: Option<BlockMap>, fetch: Fetch, callback: Callback, i: nat, n: nat)
    requires ValidPrev(prev) && HonestIn(fetch, HeightOf(prev), HeightOf(prev) + i + n) && n > 0
    requires Chained(prev, fetch, callback, HeightOf(prev) + i)
    requires ChunkOk(fetch, callback, LastPrev(prev, fetch, i), HeightOf(prev) + i, n)
    ensures Chained(prev, fetch, callback, HeightOf(prev) + i + n)
  {
    var p, base := HeightOf(prev), HeightOf(prev) + i;
    forall h | p < h <= base + n
      ensures ChainedAt(prev, fetch, callback, h)
    {
      if h > base {
        assert HonestAt(fetch, h);
        assert i > 0 ==> ChainedAt(prev, fetch, callback, base);
        assert JobPasses(fetch, callback, base, h - base - 1);
        assert h > base + 1 ==> JobPasses(fetch, callback, base, h - base - 2);
        LinksOfChunk(prev, fetch, i, n, h - base - 1);
        var linked := LinkAt(MapsAfter(fetch, base, n), LastPrev(prev, fetch, i), h - base - 1);
        assert linked;
      }
    }
  }

  lemma ChainIsChunk(prev: Option<BlockMap>, fetch: Fetch, callback: Callback, i: nat, n: nat)
    requires ValidPrev(prev) && HonestIn(fetch, HeightOf(prev), HeightOf(prev) + i + n) && n > 0
    requires Chained(prev, fetch, callback, HeightOf(prev) + i + n)
    ensures ChunkOk(fetch, callback, LastPrev(prev, fetch, i), HeightOf(prev) + i, n)
  {
    var base := HeightOf(prev) + i;
    forall j | 0 <= j < n
      ensures LinkAt(MapsAfter(fetch, base, n), LastPrev(prev, fetch, i), j)
    {
      var h := base + 1 + j;
      assert ChainedAt(prev, fetch, callback, h);
      assert i > 0 ==> ChainedAt(prev, fetch, callback, base);
      assert j > 0 ==> ChainedAt(prev, fetch, callback, h - 1);
      LinksOfChunk(prev, fetch, i, n, j);
    }
    forall j | 0 <= j < n
      ensures JobPasses(fetch, callback, base, j)
    {
      assert ChainedAt(prev, fetch, callback, base + 1 + j);
    }
  }

  lemma HonestPart(fetch: Fetch, from: int, to: int, from': int, to': int)
    requires HonestIn(fetch, from, to) && from <= from' && to' <= to
    ensures HonestIn(fetch, from', to')
  {
  }

  lemma ChainPart(prev: Option<BlockMap>, fetch: Fetch, callback: Callback, to': int, to: int)
    requires to' <= to
    ensures Chained(prev, fetch, callback, to) ==> Chained(prev, fetch, callback, to')
  {
  }

  /** An honest chunk succeeds exactly if the chain reaches its end, and then hands on its last map. */
  lemma HonestChunk(prev: Option<BlockMap>, fetch: Fetch, callback: Callback, i: nat, end: nat, order: seq<int>)
    requires i < end && Order(order, end - i)
    requires ValidPrev(prev) && HonestIn(fetch, HeightOf(prev), HeightOf(prev) + end)
    requires Chained(prev, fetch, callback, HeightOf(prev) + i)
    ensures var c := ChunkSpec(fetch, callback, LastPrev(prev, fetch, i), HeightOf(prev) + i, end - i, order);
      && (c.ok <==> Chained(prev, fetch, callback, HeightOf(prev) + end))
      && (c.ok ==> c.newprev == LastPrev(prev, fetch, end))
  {
    var base := HeightOf(prev) + i;
    assert base + (end - i) == HeightOf(prev) + end;
    HonestPart(fetch, HeightOf(prev), HeightOf(prev) + end, base, HeightOf(prev) + end);
    ChainByChunk(prev, fetch, callback, i, end - i);
    ChunkExact(fetch, callback, LastPrev(prev, fetch, i), base, end - i, order);
  }

  lemma {:induction false} HonestBatch(
      prev: Option<BlockMap>, fetch: Fetch, callback: Callback, limit: nat, size: nat, orders: Orders, i: nat)
    requires limit > 0 && OrdersOk(orders, limit, size) && i <= size
    requires ValidPrev(prev) && HonestIn(fetch, HeightOf(prev), HeightOf(prev) + size)
    requires Chained(prev, fetch, callback, HeightOf(prev) + i)
    ensures BatchFrom(prev, fetch, callback, limit, size, orders, i, LastPrev(prev, fetch, i)) <==>
            Chained(prev, fetch, callback, HeightOf(prev) + size)
    decreases size - i
  {
    if i < size {
      var end := Min(i + limit, size);
      assert Order(orders(i), end - i);
      HonestPart(fetch, HeightOf(prev), HeightOf(prev) + size, HeightOf(prev), HeightOf(prev) + end);
      HonestChunk(prev, fetch, callback, i, end, orders(i));
      if Chained(prev, fetch, callback, HeightOf(prev) + end) {
        HonestBatch(prev, fetch, callback, limit, size, orders, end);
      } else {
        ChainPart(prev, fetch, callback, HeightOf(prev) + end, HeightOf(prev) + size);
      }
    }
  }

  /**
   * For every batch size and every order of the jobs: an honest source passes exactly if all its
   * maps form one chain, and what passes is that chain exactly if the source is honest.
   */
  lemma BatchExact(
      prev: Option<BlockMap>, to: int, limit: nat, fetch: Fetch, callback: Callback, orders: Orders)
    requires limit > 0 && ValidPrev(prev) && OrdersOk(orders, limit, to - HeightOf(prev))
    ensures var ok, honest := BatchSpec(prev, to, limit, fetch, callback, orders), HonestIn(fetch, HeightOf(prev), to);
      && (honest ==> (ok <==> to > HeightOf(prev) && Chained(prev, fetch, callback, to)))
      && (ok ==> (Chained(prev, fetch, callback, to) <==> honest))
  {
    if HonestIn(fetch, HeightOf(prev), to) && to > HeightOf(prev) {
      HonestBatch(prev, fetch, callback, limit, to - HeightOf(prev), orders, 0);
    }
    if Chained(prev, fetch, callback, to) {
      forall h | HeightOf(prev) < h <= to
        ensures HonestAt(fetch, h)
      {
        assert ChainedAt(prev, fetch, callback, h);
      }
    }
  }

  // ---------------------------------------------------------------- what success means for any source

  /** The job fetched a map that passes the callback and is for one of the `n` heights after `lastprev`. */
  ghost predicate Arrived(fetch: Fetch, callback: Callback, lastprev: Option<BlockMap>, base: int, n: nat, i: int) {
    && JobPasses(fetch, callback, base, i)
    && HeightOf(lastprev) < fetch(base + 1 + i).value.height <= HeightOf(lastprev) + n
  }

  lemma StaysFailed(fetch: Fetch, callback: Callback, lastprev: Option<BlockMap>, base: int, n: nat,
                    c: Chunk, order: seq<int>)
    ensures JobsSpec(fetch, callback, lastprev, base, n, c, order).ok ==> c.ok
  {
  }

  lemma {:induction false} JobsArrive(
      fetch: Fetch, callback: Callback, lastprev: Option<BlockMap>, base: int, n: nat, c: Chunk, order: seq<int>)
    requires |c.slots| == n && JobsSpec(fetch, callback, lastprev, base, n, c, order).ok
    ensures forall i :: i in order ==> Arrived(fetch, callback, lastprev, base, n, i)
    decreases order
  {
    if order != [] {
      var c' := JobSpec(fetch, callback, lastprev, base, n, c, order[0]);
      JobsArrive(fetch, callback, lastprev, base, n, c', order[1..]);
      StaysFailed(fetch, callback, lastprev, base, n, c', order[1..]);
      assert Arrived(fetch, callback, lastprev, base, n, order[0]);
      assert order == [order[0]] + order[1..];
    }
  }

  lemma {:induction false} BatchArrives(
      prev: Option<BlockMap>, fetch: Fetch, callback: Callback, limit: nat, size: nat, orders: Orders,
      i: nat, lastprev: Option<BlockMap>)
    requires limit > 0 && OrdersOk(orders, limit, size)
    requires BatchFrom(prev, fetch, callback, limit, size, orders, i, lastprev)
    ensures forall j :: i <= j < size ==> JobPasses(fetch, callback, HeightOf(prev), j)
    decreases size - i
  {
    if i < size {
      var end, base := Min(i + limit, size), HeightOf(prev) + i;
      var c := ChunkSpec(fetch, callback, lastprev, base, end - i, orders(i));
      assert Order(orders(i), end - i);
      JobsArrive(fetch, callback, lastprev, base, end - i, Chunk(seq(end - i, _ => None), lastprev, true), orders(i));
      BatchArrives(prev, fetch, callback, limit, size, orders, end, c.newprev);
      forall j | i <= j < size
        ensures JobPasses(fetch, callback, HeightOf(prev), j)
      {
        if j < end {
          assert j - i in orders(i);
          assert Arrived(fetch, callback, lastprev, base, end - i, j - i);
        }
      }
    }
  }

  /** Whatever the source, success means that there was a map for every height and that it passed the callback. */
  lemma SuccessAsksForAll(
      prev: Option<BlockMap>, to: int, limit: nat, fetch: Fetch, callback: Callback, orders: Orders)
    requires limit > 0 && OrdersOk(orders, limit, to - HeightOf(prev))
    requires BatchSpec(prev, to, limit, fetch, callback, orders)
    ensures forall h :: HeightOf(prev) < h <= to ==> Fetched(fetch, callback, h)
  {
    BatchArrives(prev, fetch, callback, limit, to - HeightOf(prev), orders, 0, prev);
    forall h | HeightOf(prev) < h <= to
      ensures Fetched(fetch, callback, h)
    {
      assert JobPasses(fetch, callback, HeightOf(prev), h - HeightOf(prev) - 1);
    }
  }

  // ---------------------------------------------------------------- a source that is not honest

  /** The source has a single map. */
  ghost predicate Stuck(fetch: Fetch, first: BlockMap) {
    forall h :: fetch(h) == Some(first)
  }

  lemma {:induction false} StuckJobs(
      fetch: Fetch, callback: Callback, first: BlockMap, base: int, n: nat, c: Chunk, order: seq<int>)
    requires Stuck(fetch, first) && callback(first) && first.height == GENESIS_HEIGHT < base + n
    requires |c.slots| == n > 0 && c.ok && forall k :: 0 < k < n ==> c.slots[k] == None
    ensures var c' := JobsSpec(fetch, callback, None, base, n, c, order);
      c'.ok && c'.newprev == c.newprev
    decreases order
  {
    if order != [] {
      StuckJobs(fetch, callback, first, base, n, JobSpec(fetch, callback, None, base, n, c, order[0]), order[1..]);
    }
  }

  lemma {:induction false} StuckBatch(
      fetch: Fetch, callback: Callback, first: BlockMap, limit: nat, size: nat, orders: Orders, i: nat)
    requires Stuck(fetch, first) && callback(first) && first.height == GENESIS_HEIGHT
    requires limit > 1 && size > 1
    ensures BatchFrom(None, fetch, callback, limit, size, orders, i, None)
    decreases size - i
  {
    if i < size {
      var end := Min(i + limit, size);
      StuckJobs(fetch, callback, first, i - 1, end - i, Chunk(seq(end - i, _ => None), None, true), orders(i));
      StuckBatch(fetch, callback, first, limit, size, orders, end);
    }
  }

  /**
   * Heights are not compared with the height asked for: a source that answers every height with
   * the genesis map passes, up to any height, with every other map missing; unless batches are of one.
   */
  lemma DishonestSourcePasses(first: BlockMap, callback: Callback, to: int, limit: nat, orders: Orders)
    requires first.height == GENESIS_HEIGHT < to && callback(first)
    requires limit > 0 && OrdersOk(orders, limit, to + 1)
    ensures var fetch: Fetch := h => Some(first);
      && (BatchSpec(None, to, limit, fetch, callback, orders) <==> limit > 1)
      && !HonestIn(fetch, NIL_HEIGHT, to)
      && !Chained(None, fetch, callback, to)
  {
    var fetch: Fetch := h => Some(first);
    assert !HonestAt(fetch, 1) && !ChainedAt(None, fetch, callback, 1);
    if limit > 1 {
      StuckBatch(fetch, callback, first, limit, to + 1, orders, 0);
    } else {
      SecondChunkFails(fetch, callback, first, to + 1, orders);
    }
  }

  /** Chunks of one take the genesis map for the last one, and do not take it again. */
  lemma SecondChunkFails(fetch: Fetch, callback: Callback, first: BlockMap, size: nat, orders: Orders)
    requires Stuck(fetch, first) && callback(first) && first.height == GENESIS_HEIGHT
    requires size > 1 && OrdersOk(orders, 1, size)
    ensures !BatchFrom(None, fetch, callback, 1, size, orders, 0, None)
  {
    var c := ChunkSpec(fetch, callback, None, -1, 1, orders(0));
    assert Order(orders(0), 1) && 0 in orders(0);
    StuckTakesFirst(fetch, callback, first, Chunk(seq(1, _ => None), None, true), orders(0));
    assert Order(orders(1), 1) && 0 in orders(1);
    var start := Chunk(seq(1, _ => None), Some(first), true);
    var failed := JobSpec(fetch, callback, Some(first), 0, 1, start, orders(1)[0]);
    assert !failed.ok;
    assert JobsSpec(fetch, callback, Some(first), 0, 1, start, orders(1)) ==
           JobsSpec(fetch, callback, Some(first), 0, 1, failed, orders(1)[1..]) == failed;
  }

  lemma {:induction false} StuckTakesFirst(
      fetch: Fetch, callback: Callback, first: BlockMap, c: Chunk, order: seq<int>)
    requires Stuck(fetch, first) && callback(first) && first.height == GENESIS_HEIGHT
    requires |c.slots| == 1 && c.ok && (order == [] ==> c.newprev == Some(first))
    ensures JobsSpec(fetch, callback, None, -1, 1, c, order).newprev == Some(first)
    decreases order
  {
    if order != [] {
      StuckTakesFirst(fetch, callback, first, JobSpec(fetch, callback, None, -1, 1, c, order[0]), order[1..]);
    }
  }
}
