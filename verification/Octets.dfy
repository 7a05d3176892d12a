/** Octets as numbers, for the parts that compare, count and copy them. */
module Octets {
  type Octet = x: int | 0 <= x < 256

  function Low(x: Octet): (r: Octet)
    ensures r < 16
  {
    x % 16
  }

  function High(x: Octet): (r: Octet)
    ensures r < 16
  {
    x / 16
  }

  /** memcpy semantics on a value: `src` replaces the octets from `at` on. */
  function Put(buf: seq<Octet>, at: nat, src: seq<Octet>): (r: seq<Octet>)
    requires at + |src| <= |buf|
    ensures |r| == |buf|
  {
    buf[..at] + src + buf[at + |src|..]
  }

  lemma PutOne(buf: seq<Octet>, at: nat, x: Octet)
    requires at < |buf|
    ensures buf[at := x] == Put(buf, at, [x])
  {
  }

  /** One more octet of a copy. */
  lemma PutMore(buf: seq<Octet>, at: nat, v: seq<Octet>, i: nat)
    requires i < |v| && at + i < |buf|
    ensures Put(buf, at, v[..i])[at + i := v[i]] == Put(buf, at, v[..i + 1])
  {
    assert v[..i + 1] == v[..i] + [v[i]];
  }

  method Memcpy(p: array<Octet>, at: nat, x: seq<Octet>)
    requires at + |x| <= p.Length
    modifies p
    ensures p[..] == Put(old(p[..]), at, x)
  {
    forall i | 0 <= i < |x| { p[at + i] := x[i]; }
  }

  /** Adjacent stores are one store. */
  lemma PutTwice(buf: seq<Octet>, at: nat, a: seq<Octet>, b: seq<Octet>)
    requires at + |a| + |b| <= |buf|
    ensures Put(Put(buf, at, a), at + |a|, b) == Put(buf, at, a + b)
  {
  }
}
