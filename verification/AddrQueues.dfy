/** The queue of addresses of the rate limiter (launch/ratelimit.go). */
module AddrQueues {
  import opened Sequences

  // ---------------------------------------------------------------- sequences without duplicates

  function Without(s: seq<string>, out: set<string>): (r: seq<string>)
    ensures forall x :: x in r <==> x in s && x !in out
  {
    if s == [] then []
    else if s[0] in out then Without(s[1..], out)
    else [s[0]] + Without(s[1..], out)
  }

  lemma {:induction false} WithoutDistinct(s: seq<string>, out: set<string>)
    requires Distinct(s)
    ensures Distinct(Without(s, out))
  {
    if s != [] {
      WithoutDistinct(s[1..], out);
    }
  }

  lemma {:induction false} WithoutNone(s: seq<string>, out: set<string>)
    requires forall x :: x in s ==> x !in out
    ensures Without(s, out) == s
  {
    if s != [] {
      WithoutNone(s[1..], out);
    }
  }

  lemma {:induction false} WithoutTwice(s: seq<string>, a: set<string>, b: set<string>)
    ensures Without(Without(s, a), b) == Without(s, a + b)
  {
    if s != [] {
      WithoutTwice(s[1..], a, b);
    }
  }

  /** Removing the one element at `i` is removing its value. */
  lemma {:induction false} WithoutOne(s: seq<string>, i: nat)
    requires Distinct(s) && i < |s|
    ensures Without(s, {s[i]}) == s[..i] + s[i + 1..]
  {
    if i == 0 {
      WithoutNone(s[1..], {s[0]});
    } else {
      WithoutOne(s[1..], i - 1);
      assert s[..i] + s[i + 1..] == [s[0]] + (s[1..][..i - 1] + s[1..][i..]);
    }
  }

  // ---------------------------------------------------------------- the queue

  /** An element of Go's container/list. */
  class Element {
    const value: string

    constructor (value: string)
      ensures this.value == value
    {
      this.value := value;
    }
  }

  function ValuesOf(l: seq<Element>): (r: seq<string>)
    ensures |r| == |l|
  {
    seq(|l|, i requires 0 <= i < |l| => l[i].value)
  }

  class RateLimitAddrsQueue {
    var l: seq<Element>
    var m: map<string, Element>

    /** The list and the map are about the same elements, and no value is twice in the list. */
    ghost predicate Valid()
      reads this
    {
      && Distinct(Contents())
      && m.Keys == ToSet(Contents())
      && forall e :: e in l ==> e.value in m && m[e.value] == e
    }

    function Contents(): seq<string>
      reads this
    {
      ValuesOf(l)
    }

    constructor ()
      ensures Valid() && Contents() == []
    {
      l, m := [], map[];
    }

    method Len() returns (n: nat)
      ensures n == |Contents()|
    {
      n := |l|;
    }

    /** Where the element of a value is. */
    ghost method Position(addr: string) returns (i: nat)
      requires Valid() && addr in m
      ensures i < |l| && l[i] == m[addr] && Contents()[i] == addr
    {
      assert addr in ToSet(Contents());
      i :| 0 <= i < |l| && Contents()[i] == addr;
      assert l[i] in l;
    }

    /** list.Remove */
    method RemoveElement(e: Element)
      requires e in l && Distinct(Contents())
      modifies this`l
      ensures Contents() == Without(old(Contents()), {e.value})
      ensures forall x :: x in l <==> x in old(l) && x.value != e.value
    {
      var i := 0;
      while l[i] != e
        invariant 0 <= i < |l| && e in l[i..]
        decreases |l| - i
      {
        assert l[i..] == [l[i]] + l[i + 1..];
        i := i + 1;
      }
      WithoutOne(Contents(), i);
      RemovedElements(l, i);
      l := l[..i] + l[i + 1..];
    }

    /** Takes the element of a value out of the list, if there is one. */
    method Detach(addr: string)
      requires Valid()
      modifies this`l
      ensures Contents() == Without(old(Contents()), {addr})
      ensures forall x :: x in l <==> x in old(l) && x.value != addr
    {
      if addr in m {
        ghost var i := Position(addr);
        RemoveElement(m[addr]);
      } else {
        WithoutNone(Contents(), {addr});
        assert forall x :: x in l ==> x.value in m;
      }
    }

    method Add(addr: string)
      requires Valid()
      modifies this
      ensures Valid()
      ensures Contents() == Without(old(Contents()), {addr}) + [addr]
    {
      WithoutDistinct(Contents(), {addr});
      Detach(addr);
      ghost var rest := Contents();
      var e := new Element(addr);
      l := l + [e];
      m := m[addr := e];
      assert Contents() == rest + [addr];
      PushBack(rest, addr);
    }

    method Remove(addr: string) returns (removed: bool)
      requires Valid()
      modifies this
      ensures Valid()
      ensures Contents() == Without(old(Contents()), {addr})
      ensures removed <==> addr in old(Contents())
    {
      WithoutDistinct(Contents(), {addr});
      removed := addr in m;
      Detach(addr);
      if removed {
        Forget(addr);
      }
    }

    /** Takes a value out of the map whose element is out of the list. */
    method Forget(addr: string)
      requires Distinct(Contents()) && addr !in Contents() && m.Keys == ToSet(Contents()) + {addr}
      requires forall e :: e in l ==> e.value in m && m[e.value] == e && e.value != addr
      modifies this`m
      ensures Valid()
    {
      m := map k | k in m && k != addr :: m[k];
      assert m.Keys == ToSet(Contents());
    }

    /** Takes the front; without any the empty string is returned. */
    method Pop() returns (addr: string)
      requires Valid()
      modifies this
      ensures Valid()
      ensures old(Contents()) == [] ==> addr == "" && Contents() == []
      ensures old(Contents()) != [] ==> addr == old(Contents())[0] && Contents() == old(Contents())[1..]
    {
      addr := "";
      if l != [] {
        var e := l[0];
        addr := e.value;
        assert Contents()[0] == addr;
        PopFront(Contents());
        RemovedElements(l, 0);
        l := l[1..];
        m := map k | k in m && k != addr :: m[k];
        assert Contents() == old(Contents())[1..];
      }
    }
  }

  lemma PushBack(s: seq<string>, x: string)
    requires Distinct(s) && x !in s
    ensures Distinct(s + [x]) && ToSet(s + [x]) == ToSet(s) + {x}
  {
  }

  lemma PopFront(s: seq<string>)
    requires s != [] && Distinct(s)
    ensures Distinct(s[1..]) && ToSet(s[1..]) == ToSet(s) - {s[0]}
  {
    assert s == [s[0]] + s[1..];
  }

  lemma RemovedElements(l: seq<Element>, i: nat)
    requires i < |l| && Distinct(ValuesOf(l))
    ensures ValuesOf(l[..i] + l[i + 1..]) == ValuesOf(l)[..i] + ValuesOf(l)[i + 1..]
    ensures forall x :: x in l[..i] + l[i + 1..] <==> x in l && x.value != l[i].value
  {
    var r := l[..i] + l[i + 1..];
    forall x | x in l && x.value != l[i].value
      ensures x in r
    {
      var j :| 0 <= j < |l| && l[j] == x;
      assert if j < i then r[j] == x else r[j - 1] == x;
    }
    forall x | x in r
      ensures x in l && x.value != l[i].value
    {
      var j :| 0 <= j < |r| && r[j] == x;
      var k := if j < i then j else j + 1;
      assert l[k] == x && ValuesOf(l)[k] != ValuesOf(l)[i];
    }
  }
}
