/** Length-prefixed slices of bytes, in memory and from a stream (util/bytes.go, util/int.go). */
module Framing {
  import opened Wrappers

  newtype byte = x: int | 0 <= x < 256

  type Bytes = seq<byte>

  const MAX_LENGTH_BYTES: nat := 32767
  const MAX_LENGTHED_BYTES: nat := 2147483647

  // ---------------------------------------------------------------- numbers

  /** The `n` lowest bytes of a number, the highest one first. */
  function BigEndian(i: nat, n: nat): (b: Bytes)
    ensures |b| == n
  {
    if n == 0 then [] else BigEndian(i / 256, n - 1) + [(i % 256) as byte]
  }

  function Value(b: Bytes): nat {
    if b == [] then 0 else Value(b[..|b| - 1]) * 256 + b[|b| - 1] as int
  }

  function Pow256(n: nat): (p: nat)
    ensures p >= 1
  {
    if n == 0 then 1 else 256 * Pow256(n - 1)
  }

  lemma {:induction false} ValueOfBigEndian(i: nat, n: nat)
    requires i < Pow256(n)
    ensures Value(BigEndian(i, n)) == i
  {
    if n > 0 {
      ValueOfBigEndian(i / 256, n - 1);
      var b := BigEndian(i, n);
      assert b[..|b| - 1] == BigEndian(i / 256, n - 1);
    }
  }

  lemma {:induction false} BigEndianOfValue(b: Bytes)
    ensures BigEndian(Value(b), |b|) == b
  {
    if b != [] {
      BigEndianOfValue(b[..|b| - 1]);
      assert Value(b) / 256 == Value(b[..|b| - 1]);
      assert b == b[..|b| - 1] + [b[|b| - 1]];
    }
  }

  lemma Pow256Eight()
    ensures Pow256(8) == UINT64_LIMIT
  {
    assert Pow256(4) == 0x1_0000_0000;
    assert Pow256(6) == 65536 * Pow256(4);
    assert Pow256(8) == 65536 * Pow256(6);
  }

  function Uint64ToBytes(i: nat): (b: Bytes)
    ensures |b| == 8
  {
    BigEndian(i, 8)
  }

  lemma LengthRoundTrip(i: nat, rest: Bytes)
    requires i < UINT64_LIMIT
    ensures (Uint64ToBytes(i) + rest)[..8] == Uint64ToBytes(i) && Value(Uint64ToBytes(i)) == i
    ensures (Uint64ToBytes(i) + rest)[8..] == rest
  {
    Pow256Eight();
    ValueOfBigEndian(i, 8);
  }

  /** The first byte that differs decides. */
  predicate LexLess(a: Bytes, b: Bytes)
    requires |a| == |b|
  {
    a != [] && (a[0] < b[0] || (a[0] == b[0] && LexLess(a[1..], b[1..])))
  }

  lemma {:induction false} LexLessSnoc(a: Bytes, b: Bytes, x: byte, y: byte)
    requires |a| == |b|
    ensures LexLess(a + [x], b + [y]) <==> LexLess(a, b) || (a == b && x < y)
  {
    if a == [] {
      assert (a + [x])[1..] == [] && (b + [y])[1..] == [];
    } else {
      LexLessSnoc(a[1..], b[1..], x, y);
      assert (a + [x])[1..] == a[1..] + [x] && (b + [y])[1..] == b[1..] + [y];
      assert a == [a[0]] + a[1..] && b == [b[0]] + b[1..];
    }
  }

  /** The highest byte comes first: encoded numbers are ordered as the numbers are. */
  lemma {:induction false} BigEndianIsOrdered(i: nat, j: nat, n: nat)
    requires i < j < Pow256(n)
    ensures LexLess(BigEndian(i, n), BigEndian(j, n))
  {
    if i / 256 < j / 256 {
      BigEndianIsOrdered(i / 256, j / 256, n - 1);
    }
    LexLessSnoc(BigEndian(i / 256, n - 1), BigEndian(j / 256, n - 1), (i % 256) as byte, (j % 256) as byte);
  }

  // ---------------------------------------------------------------- writing

  function Lengthed(b: Bytes): Bytes {
    Uint64ToBytes(|b|) + b
  }

  function Entries(m: seq<Bytes>): Bytes {
    if m == [] then [] else Lengthed(m[0]) + Entries(m[1..])
  }

  function LengthedSlice(m: seq<Bytes>): Bytes {
    Uint64ToBytes(|m|) + Entries(m)
  }

  class Writer {
    var out: Bytes

    constructor ()
      ensures out == []
    {
      out := [];
    }

    method Write(b: Bytes)
      modifies this
      ensures out == old(out) + b
    {
      out := out + b;
    }
  }

  method WriteLengthed(w: Writer, b: Bytes)
    modifies w
    ensures w.out == old(w.out) + Lengthed(b)
  {
    var i := |b|;
    w.Write(Uint64ToBytes(i));
    if i < 1 {
      return;
    }
    w.Write(b);
  }

  method WriteLengthedSlice(w: Writer, m: seq<Bytes>)
    modifies w
    ensures w.out == old(w.out) + LengthedSlice(m)
  {
    w.Write(Uint64ToBytes(|m|));
    for i := 0 to |m|
      invariant w.out + Entries(m[i..]) == old(w.out) + LengthedSlice(m)
    {
      assert m[i..][0] == m[i] && m[i..][1..] == m[i + 1..];
      assert Entries(m[i..]) == Lengthed(m[i]) + Entries(m[i + 1..]);
      WriteLengthed(w, m[i]);
    }
  }

  // ---------------------------------------------------------------- reading from memory

  datatype Error = MissingLength | NotEnough | Insufficient

  function ReadLengthBytes(b: Bytes): Result<nat, Error> {
    if |b| < 8 then Err(MissingLength) else Ok(Value(b[..8]))
  }

  /** One entry, and what is left after it. */
  function ReadLengthedBytes(b: Bytes): (r: Result<(Bytes, Bytes), Error>)
    ensures r.Ok? ==> |b| == 8 + |r.value.0| + |r.value.1|
  {
    var i := ReadLengthBytes(b);
    if i.Err? then Err(i.error)
    else if |b| - 8 < i.value then Err(NotEnough)
    else Ok((b[8..8 + i.value], b[8 + i.value..]))
  }

  function ReadEntries(b: Bytes, n: nat): (r: Result<(seq<Bytes>, Bytes), Error>)
    ensures r.Ok? ==> |r.value.0| == n && |r.value.1| <= |b|
  {
    if n == 0 then Ok(([], b))
    else
      var e := ReadLengthedBytes(b);
      if e.Err? then Err(e.error)
      else
        var r := ReadEntries(e.value.1, n - 1);
        if r.Err? then r else Ok(([e.value.0] + r.value.0, r.value.1))
  }

  /** Beyond the limit of entries nothing is returned, and no error either. */
  function ReadSlice(b: Bytes): Result<(seq<Bytes>, Bytes), Error> {
    var i := ReadLengthBytes(b);
    if i.Err? then Err(i.error)
    else if i.value > MAX_LENGTH_BYTES then Ok(([], []))
    else ReadEntries(b[8..], i.value)
  }

  /** `r` behind the entries that were read before. */
  function Prefixed(m: seq<Bytes>, r: Result<(seq<Bytes>, Bytes), Error>): Result<(seq<Bytes>, Bytes), Error> {
    if r.Err? then r else Ok((m + r.value.0, r.value.1))
  }

  lemma PrefixedByNone(r: Result<(seq<Bytes>, Bytes), Error>)
    ensures Prefixed([], r) == r
  {
    if r.Ok? {
      assert [] + r.value.0 == r.value.0;
    }
  }

  lemma ReadOneMore(m: seq<Bytes>, b: Bytes, n: nat)
    requires n > 0
    ensures var e := ReadLengthedBytes(b);
      Prefixed(m, ReadEntries(b, n)) ==
      if e.Err? then Err(e.error) else Prefixed(m + [e.value.0], ReadEntries(e.value.1, n - 1))
  {
    var e := ReadLengthedBytes(b);
    if e.Ok? {
      var r := ReadEntries(e.value.1, n - 1);
      if r.Ok? {
        assert m + ([e.value.0] + r.value.0) == m + [e.value.0] + r.value.0;
      }
    }
  }

  method ReadLengthedBytesSlice(b: Bytes) returns (r: Result<(seq<Bytes>, Bytes), Error>)
    ensures r == ReadSlice(b)
  {
    if |b| < 8 {
      return Err(MissingLength);
    }
    var i := ReadLengthBytes(b);
    if i.Err? {
      return Err(MissingLength);
    }
    if i.value > MAX_LENGTH_BYTES {
      return Ok(([], []));
    }
    var m: seq<Bytes>, left := [], b[8..];
    PrefixedByNone(ReadSlice(b));
    while |m| < i.value
      invariant |m| <= i.value
      invariant Prefixed(m, ReadEntries(left, i.value - |m|)) == ReadSlice(b)
      decreases i.value - |m|
    {
      ReadOneMore(m, left, i.value - |m|);
      var e := ReadLengthedBytes(left);
      if e.Err? {
        return Err(e.error);
      }
      m := m + [e.value.0];
      left := e.value.1;
    }
    assert m + [] == m;
    return Ok((m, left));
  }

  // ---------------------------------------------------------------- round trips in memory

  /** The length of every entry fits into its length prefix. */
  predicate Writable(m: seq<Bytes>) {
    |m| < UINT64_LIMIT && forall b :: b in m ==> |b| < UINT64_LIMIT
  }

  lemma LengthedRoundTrip(b: Bytes, suffix: Bytes)
    requires |b| < UINT64_LIMIT
    ensures ReadLengthedBytes(Lengthed(b) + suffix) == Ok((b, suffix))
  {
    var all := Lengthed(b) + suffix;
    assert all == Uint64ToBytes(|b|) + (b + suffix);
    LengthRoundTrip(|b|, b + suffix);
    assert all[8..8 + |b|] == b && all[8 + |b|..] == suffix;
  }

  lemma {:induction false} EntriesRoundTrip(m: seq<Bytes>, suffix: Bytes)
    requires Writable(m)
    ensures ReadEntries(Entries(m) + suffix, |m|) == Ok((m, suffix))
  {
    if m == [] {
      assert [] + suffix == suffix;
    } else {
      var rest := m[1..];
      EntriesRoundTrip(rest, suffix);
      LengthedRoundTrip(m[0], Entries(rest) + suffix);
      ConcatAssociative(Lengthed(m[0]), Entries(rest), suffix);
      assert [m[0]] + rest == m;
    }
  }

  lemma ConcatAssociative(a: Bytes, b: Bytes, c: Bytes)
    ensures a + b + c == a + (b + c)
  {
  }

  /** Reading what was written, whatever follows it, gives it back exactly up to the limit of entries. */
  lemma RoundTripIff(m: seq<Bytes>, suffix: Bytes)
    requires Writable(m)
    ensures ReadSlice(LengthedSlice(m) + suffix) == Ok((m, suffix)) <==> |m| <= MAX_LENGTH_BYTES
    ensures |m| > MAX_LENGTH_BYTES ==> ReadSlice(LengthedSlice(m) + suffix) == Ok(([], []))
  {
    var all := LengthedSlice(m) + suffix;
    assert all == Uint64ToBytes(|m|) + (Entries(m) + suffix);
    LengthRoundTrip(|m|, Entries(m) + suffix);
    EntriesRoundTrip(m, suffix);
  }

  lemma LengthedCanonical(b: Bytes)
    requires ReadLengthedBytes(b).Ok?
    ensures b == Lengthed(ReadLengthedBytes(b).value.0) + ReadLengthedBytes(b).value.1
  {
    BigEndianOfValue(b[..8]);
    var (e, left) := ReadLengthedBytes(b).value;
    assert b == b[..8] + e + left;
  }

  lemma {:induction false} EntriesCanonical(b: Bytes, n: nat)
    requires ReadEntries(b, n).Ok?
    ensures b == Entries(ReadEntries(b, n).value.0) + ReadEntries(b, n).value.1
  {
    if n > 0 {
      LengthedCanonical(b);
      var (e, left) := ReadLengthedBytes(b).value;
      EntriesCanonical(left, n - 1);
      var m := ReadEntries(b, n).value.0;
      assert m[0] == e && m[1..] == ReadEntries(left, n - 1).value.0;
    }
  }

  /** Whatever is accepted is exactly the encoding of the result, if it is within the limit of entries. */
  lemma Canonical(b: Bytes)
    requires ReadSlice(b).Ok? && Value(b[..8]) <= MAX_LENGTH_BYTES
    ensures b == LengthedSlice(ReadSlice(b).value.0) + ReadSlice(b).value.1
  {
    var n := Value(b[..8]);
    var (m, left) := ReadSlice(b).value;
    BigEndianOfValue(b[..8]);
    EntriesCanonical(b[8..], n);
    assert b == b[..8] + b[8..];
    assert |m| == n && Uint64ToBytes(n) == b[..8];
    ConcatAssociative(Uint64ToBytes(n), Entries(m), left);
  }

  /** The accepted inputs that are not the encoding of their result are those beyond the limit. */
  lemma CanonicalIff(b: Bytes)
    requires ReadSlice(b).Ok?
    ensures b == LengthedSlice(ReadSlice(b).value.0) + ReadSlice(b).value.1 <==> Value(b[..8]) <= MAX_LENGTH_BYTES
  {
    if Value(b[..8]) <= MAX_LENGTH_BYTES {
      Canonical(b);
    } else {
      LengthRoundTrip(0, []);
      assert LengthedSlice([]) + [] == Uint64ToBytes(0) + [];
    }
  }

  // ---------------------------------------------------------------- reading from a stream

  /**
   * A stream that delivers its bytes in chunks: `plan` gives the sizes of the next ones, and
   * `eager` says whether the end is reported together with the last bytes.
   */
  class Reader {
    var rest: Bytes
    var plan: seq<nat>
    const eager: bool

    constructor (rest: Bytes, plan: seq<nat>, eager: bool)
      ensures this.rest == rest && this.plan == plan && this.eager == eager
    {
      this.rest, this.plan, this.eager := rest, plan, eager;
    }

    method Read(n: nat) returns (data: Bytes, eof: bool)
      requires n > 0
      modifies this
      ensures |data| <= n && old(rest) == data + rest
      ensures eof ==> rest == []
      ensures old(rest) == [] ==> eof
      ensures eof || |data| > 0 || |plan| < |old(plan)|
    {
      if rest == [] {
        return [], true;
      }
      var want := n;
      if plan != [] {
        want := Min(plan[0], n);
        plan := plan[1..];
      }
      var c := Min(want, |rest|);
      data := rest[..c];
      rest := rest[c..];
      eof := rest == [] && eager;
    }
  }

  datatype Status = Done | EOF | Failed

  /** Reads until `k` bytes are there; the end of the stream may be reported with the last of them. */
  method EnsureRead(r: Reader, k: nat) returns (n: nat, b: Bytes, status: Status)
    modifies r
    ensures n == |b|
    ensures |old(r.rest)| >= k ==> n == k && !status.Failed? && old(r.rest) == b + r.rest
    ensures |old(r.rest)| < k ==> status.Failed?
    ensures status.EOF? ==> r.rest == []
  {
    n, b := 0, [];
    if k < 1 {
      assert r.rest == b + r.rest;
      return 0, [], Done;
    }
    while n < k
      invariant n == |b| <= k
      invariant old(r.rest) == b + r.rest
      decreases k - n, |r.plan|
    {
      var data, eof := r.Read(k - n);
      ghost var before := b;
      b := b + data;
      n := n + |data|;
      assert before + (data + r.rest) == b + r.rest;
      if n == k {
        return n, b, if eof then EOF else Done;
      }
      if eof {
        return n, b, Failed;
      }
    }
    return n, b, Done;
  }

  method ReadLength(r: Reader) returns (read: nat, length: Result<nat, Error>)
    modifies r
    ensures length.Ok? <==> |old(r.rest)| >= 8
    ensures length.Ok? ==> read == 8 && length == ReadLengthBytes(old(r.rest)) && r.rest == old(r.rest)[8..]
  {
    var n, p, status := EnsureRead(r, 8);
    if status.Failed? {
      return n, Err(Insufficient);
    }
    assert old(r.rest)[..8] == p == p[..8];
    return n, ReadLengthBytes(p);
  }

  /** An entry that the stream reader takes. */
  predicate Streamable(b: Bytes) {
    |b| <= MAX_LENGTHED_BYTES
  }

  method ReadLengthed(r: Reader) returns (read: nat, b: Bytes, status: Status)
    modifies r
    ensures status.Failed? <==> !(ReadLengthedBytes(old(r.rest)).Ok?
                                  && Streamable(ReadLengthedBytes(old(r.rest)).value.0))
    ensures !status.Failed? ==> (b, r.rest) == ReadLengthedBytes(old(r.rest)).value && read == 8 + |b|
    ensures status.EOF? ==> r.rest == []
  {
    var n, i := ReadLength(r);
    if i.Err? {
      return n, [], Failed;
    }
    if i.value < 1 {
      return n, [], Done;
    }
    if i.value > MAX_LENGTHED_BYTES {
      return n, [], Failed;
    }
    ghost var after := r.rest;
    assert after == old(r.rest)[8..];
    var m;
    m, b, status := EnsureRead(r, i.value);
    if !status.Failed? {
      assert b == after[..i.value] == old(r.rest)[8..8 + i.value];
      assert r.rest == after[i.value..] == old(r.rest)[8 + i.value..];
    }
    return n + m, b, status;
  }

  /** The stream reader takes what the reader in memory takes within the limits. */
  ghost predicate StreamAccepts(b: Bytes) {
    && |b| >= 8
    && Value(b[..8]) <= MAX_LENGTH_BYTES
    && ReadSlice(b).Ok?
    && forall e :: e in ReadSlice(b).value.0 ==> Streamable(e)
  }

  /** Whether the entries of `r` behind `m` are all there and can be streamed. */
  ghost predicate StreamsOn(r: Result<(seq<Bytes>, Bytes), Error>) {
    r.Ok? && forall e :: e in r.value.0 ==> Streamable(e)
  }

  method ReadLengthedSlice(r: Reader) returns (read: nat, hs: seq<Bytes>, ok: bool)
    modifies r
    ensures ok <==> StreamAccepts(old(r.rest))
    ensures ok ==> (hs, r.rest) == ReadSlice(old(r.rest)).value && read == |old(r.rest)| - |r.rest|
  {
    var n, i := ReadLength(r);
    if i.Err? {
      return n, [], false;
    }
    if i.value < 1 {
      return n, [], true;
    }
    if i.value > MAX_LENGTH_BYTES {
      return n, [], false;
    }
    var m;
    m, hs, ok := ReadEntriesFrom(r, i.value);
    return n + m, hs, ok;
  }

  /** The loop of ReadLengthedSlice. */
  method ReadEntriesFrom(r: Reader, n: nat) returns (read: nat, hs: seq<Bytes>, ok: bool)
    modifies r
    ensures ok <==> StreamsOn(ReadEntries(old(r.rest), n))
    ensures ok ==> (hs, r.rest) == ReadEntries(old(r.rest), n).value && read == |old(r.rest)| - |r.rest|
  {
    hs, read := [], 0;
    ghost var all := ReadEntries(r.rest, n);
    PrefixedByNone(all);
    while |hs| < n
      invariant |hs| <= n
      invariant Prefixed(hs, ReadEntries(r.rest, n - |hs|)) == all
      invariant forall e :: e in hs ==> Streamable(e)
      invariant read + |r.rest| == |old(r.rest)|
      decreases n - |hs|
    {
      ReadOneMore(hs, r.rest, n - |hs|);
      ghost var before := r.rest;
      var m, b, status := ReadLengthed(r);
      if status.Failed? {
        NotStreamable(hs, before, n - |hs|);
        return read, [], false;
      }
      if status.EOF? && |hs| < n - 1 {
        return read, [], false;
      }
      hs := hs + [b];
      read := read + m;
    }
    assert hs + [] == hs;
    return read, hs, true;
  }

  /** An entry that is missing or too long spoils the whole slice. */
  lemma NotStreamable(m: seq<Bytes>, b: Bytes, n: nat)
    requires n > 0
    requires ReadLengthedBytes(b).Ok? ==> !Streamable(ReadLengthedBytes(b).value.0)
    ensures !StreamsOn(Prefixed(m, ReadEntries(b, n)))
  {
    ReadOneMore(m, b, n);
    if ReadEntries(b, n).Ok? {
      var e := ReadLengthedBytes(b).value.0;
      assert e == ReadEntries(b, n).value.0[0];
      assert e in m + ReadEntries(b, n).value.0;
    }
  }

  /** Streaming what was written gives it back, in whatever chunks it arrives. */
  lemma StreamRoundTrip(m: seq<Bytes>, suffix: Bytes)
    requires |m| <= MAX_LENGTH_BYTES && forall b :: b in m ==> Streamable(b)
    ensures StreamAccepts(LengthedSlice(m) + suffix)
    ensures ReadSlice(LengthedSlice(m) + suffix) == Ok((m, suffix))
  {
    RoundTripIff(m, suffix);
    var all := LengthedSlice(m) + suffix;
    assert all == Uint64ToBytes(|m|) + (Entries(m) + suffix);
    LengthRoundTrip(|m|, Entries(m) + suffix);
  }
}
