/**
 NAS/src/StandardIeSchemas.c: the information element writers of section 11.2.1.1 of TS 24.007.
 Each stores at the cursor and returns the new cursor. Length arguments are uint8_t or uint16_t in
 the source, so a longer length is reduced before the copy.
 */
module NasIe {
  import opened Octets

  function EncLv4(v: seq<Octet>): (r: seq<Octet>)
    requires |v| <= 255
    ensures |r| == |v| + 1
  {
    [|v|] + v
  }

  function EncTlv4(t: Octet, v: seq<Octet>): (r: seq<Octet>)
    requires |v| <= 255
    ensures |r| == |v| + 2
  {
    [t, |v|] + v
  }

  function EncLv6(v: seq<Octet>): (r: seq<Octet>)
    requires |v| <= 65535
    ensures |r| == |v| + 2
  {
    [|v| / 256, |v| % 256] + v
  }

  /** The copying loop every writer ends with. */
  method Copy(buf: array<Octet>, p: nat, v: seq<Octet>, n: nat)
    requires n <= |v| && p + n <= buf.Length
    modifies buf
    ensures buf[..] == Put(old(buf[..]), p, v[..n])
  {
    var i := 0;
    while i < n
      invariant 0 <= i <= n
      invariant buf[..] == Put(old(buf[..]), p, v[..i])
    {
      PutMore(old(buf[..]), p, v, i);
      buf[p + i] := v[i];
      i := i + 1;
    }
  }

  /** nasIe_v_t1_l: the low nibble, cursor unmoved. */
  method VT1Low(buf: array<Octet>, p: nat, v: Octet)
    requires p < buf.Length
    modifies buf
    ensures buf[..] == old(buf[..])[p := 16 * High(old(buf[p])) + Low(v)]
  {
    buf[p] := 16 * High(buf[p]) + Low(v);
  }

  /** nasIe_v_t1_h: the high nibble, then the next octet. */
  method VT1High(buf: array<Octet>, p: nat, v: Octet) returns (q: nat)
    requires p < buf.Length
    modifies buf
    ensures q == p + 1
    ensures buf[..] == old(buf[..])[p := 16 * Low(v) + Low(old(buf[p]))]
  {
    buf[p] := 16 * Low(v) + Low(buf[p]);
    q := p + 1;
  }

  /** nasIe_v_t1_l followed by nasIe_v_t1_h fills one octet whatever was there. */
  method VT1Pair(buf: array<Octet>, p: nat, low: Octet, high: Octet) returns (q: nat)
    requires p < buf.Length
    modifies buf
    ensures q == p + 1
    ensures buf[..] == Put(old(buf[..]), p, [16 * Low(high) + Low(low)])
  {
    VT1Low(buf, p, low);
    q := VT1High(buf, p, high);
  }

  /** nasIe_tv_t1. The tag goes to the LOW nibble. */
  method TvT1(buf: array<Octet>, p: nat, t: Octet, v: Octet) returns (q: nat)
    requires p < buf.Length
    modifies buf
    ensures q == p + 1
    ensures buf[..] == Put(old(buf[..]), p, [16 * Low(v) + Low(t)])
  {
    buf[p] := 16 * High(buf[p]) + Low(t);
    buf[p] := 16 * Low(v) + Low(buf[p]);
    q := p + 1;
  }

  /** nasIe_v_t3 */
  method VT3(buf: array<Octet>, p: nat, v: seq<Octet>, vsize: nat) returns (q: nat)
    requires vsize <= |v| && p + vsize % 256 <= buf.Length
    modifies buf
    ensures q == p + vsize % 256
    ensures buf[..] == Put(old(buf[..]), p, v[..vsize % 256])
  {
    Copy(buf, p, v, vsize % 256);
    q := p + vsize % 256;
  }

  /** nasIe_tv_t3 */
  method TvT3(buf: array<Octet>, p: nat, t: Octet, v: seq<Octet>) returns (q: nat)
    requires |v| <= 255 && p + 1 + |v| <= buf.Length
    modifies buf
    ensures q == p + 1 + |v|
    ensures buf[..] == Put(old(buf[..]), p, [t] + v)
  {
    PutOne(buf[..], p, t);
    buf[p] := t;
    Copy(buf, p + 1, v, |v|);
    assert v[..|v|] == v;
    PutTwice(old(buf[..]), p, [t], v);
    q := p + 1 + |v|;
  }

  /** nasIe_lv_t4 */
  method LvT4(buf: array<Octet>, p: nat, v: seq<Octet>) returns (q: nat)
    requires |v| <= 255 && p + 1 + |v| <= buf.Length
    modifies buf
    ensures q == p + |EncLv4(v)|
    ensures buf[..] == Put(old(buf[..]), p, EncLv4(v))
  {
    PutOne(buf[..], p, |v|);
    buf[p] := |v|;
    Copy(buf, p + 1, v, |v|);
    assert v[..|v|] == v;
    PutTwice(old(buf[..]), p, [|v|], v);
    q := p + 1 + |v|;
  }

  /** nasIe_tlv_t4 */
  method TlvT4(buf: array<Octet>, p: nat, t: Octet, v: seq<Octet>) returns (q: nat)
    requires |v| <= 255 && p + 2 + |v| <= buf.Length
    modifies buf
    ensures q == p + |EncTlv4(t, v)|
    ensures buf[..] == Put(old(buf[..]), p, EncTlv4(t, v))
  {
    buf[p] := t;
    buf[p + 1] := |v|;
    assert buf[..] == Put(old(buf[..]), p, [t, |v|]);
    Copy(buf, p + 2, v, |v|);
    assert v[..|v|] == v;
    PutTwice(old(buf[..]), p, [t, |v|], v);
    q := p + 2 + |v|;
  }

  /** nasIe_lv_t6: the length in network order. */
  method LvT6(buf: array<Octet>, p: nat, v: seq<Octet>) returns (q: nat)
    requires |v| <= 65535 && p + 2 + |v| <= buf.Length
    modifies buf
    ensures q == p + |EncLv6(v)|
    ensures buf[..] == Put(old(buf[..]), p, EncLv6(v))
  {
    buf[p] := |v| / 256;
    buf[p + 1] := |v| % 256;
    assert buf[..] == Put(old(buf[..]), p, [|v| / 256, |v| % 256]);
    Copy(buf, p + 2, v, |v|);
    assert v[..|v|] == v;
    PutTwice(old(buf[..]), p, [|v| / 256, |v| % 256], v);
    q := p + 2 + |v|;
  }
}
