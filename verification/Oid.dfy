/** The OBJECT IDENTIFIER decoder that osmo-smdpp.py installs (section 8.19 of ITU-T X.690). */
module Oid {
  import opened Wrappers
  import opened Bytes

  /** `read_subidentifier`: base-128 digits until one without its top bit; None past the end of the data. */
  method ReadSubidentifier(data: seq<byte>, start: nat) returns (r: Option<(nat, nat)>)
    requires start <= |data|
    ensures r == Subidentifier(data, start, 0)
  {
    var value: nat := 0;
    var offset := start;
    while true
      invariant start <= offset <= |data|
      invariant Subidentifier(data, start, 0) == Subidentifier(data, offset, value)
      decreases |data| - offset
    {
      if offset >= |data| { return None; }
      var b: int := data[offset];
      value := 128 * value + b % 128;
      offset := offset + 1;
      if b < 128 { break; }
    }
    r := Some((value, offset));
  }

  function Subidentifier(data: seq<byte>, offset: nat, value: nat): (r: Option<(nat, nat)>)
    requires offset <= |data|
    ensures r.Some? ==> offset < r.value.1 <= |data|
    decreases |data| - offset
  {
    if offset == |data| then None
    else
      var b: int := data[offset];
      var v := 128 * value + b % 128;
      if b < 128 then Some((v, offset + 1)) else Subidentifier(data, offset + 1, v)
  }

  /** Base-128 digits, the highest first, in the low seven bits. */
  function FromBase128(s: seq<byte>): nat {
    if s == [] then 0 else 128 * FromBase128(s[..|s| - 1]) + s[|s| - 1] % 128
  }

  /** However it is encoded, shortest or not, a number ends with the first octet below 128, and there must be one. */
  lemma SubidentifierMeans(data: seq<byte>, start: nat, end: nat)
    requires start <= end <= |data| && forall i | start <= i < end :: data[i] >= 128
    ensures end == |data| ==> Subidentifier(data, start, 0) == None
    ensures end < |data| && data[end] < 128 ==>
              Subidentifier(data, start, 0) == Some((FromBase128(data[start..end + 1]), end + 1))
  {
    ReadUpTo(data, start, end);
    if end < |data| { assert data[start..end + 1][..end - start] == data[start..end]; }
  }

  lemma {:induction false} ReadUpTo(data: seq<byte>, start: nat, end: nat)
    requires start <= end <= |data| && forall i | start <= i < end :: data[i] >= 128
    ensures Subidentifier(data, start, 0) == Subidentifier(data, end, FromBase128(data[start..end]))
    decreases end
  {
    if start < end {
      ReadUpTo(data, start, end - 1);
      assert data[start..end][..end - 1 - start] == data[start..end - 1];
    }
  }

  /** `fixed_decode_object_identifier`: the arcs, and where reading stopped. */
  method DecodeObjectIdentifier(data: seq<byte>, offset: nat, end: nat) returns (r: Option<(seq<nat>, nat)>)
    requires offset <= |data|
    ensures r == Decoded(data, offset, end)
  {
    var first := ReadSubidentifier(data, offset);
    if first.None? { return None; }
    var (subid, at) := first.value;
    var arcs := FirstArcs(subid);
    while at < end
      invariant at <= |data|
      invariant Decoded(data, offset, end) == Prepend(arcs, MoreArcs(data, at, end))
      decreases |data| - at
    {
      var next := ReadSubidentifier(data, at);
      if next.None? { return None; }
      PrependTwice(arcs, [next.value.0], MoreArcs(data, next.value.1, end));
      arcs := arcs + [next.value.0];
      at := next.value.1;
    }
    assert arcs + [] == arcs;
    r := Some((arcs, at));
  }

  function FirstArcs(subid: nat): seq<nat> {
    if subid < 40 then [0, subid] else if subid < 80 then [1, subid - 40] else [2, subid - 80]
  }

  function Prepend(arcs: seq<nat>, more: Option<(seq<nat>, nat)>): Option<(seq<nat>, nat)> {
    match more
    case None => None
    case Some((s, stop)) => Some((arcs + s, stop))
  }

  lemma PrependTwice(a: seq<nat>, b: seq<nat>, more: Option<(seq<nat>, nat)>)
    ensures Prepend(a, Prepend(b, more)) == Prepend(a + b, more)
  {
    if more.Some? { assert a + (b + more.value.0) == (a + b) + more.value.0; }
  }

  function MoreArcs(data: seq<byte>, at: nat, end: nat): Option<(seq<nat>, nat)>
    requires at <= |data|
    decreases |data| - at
  {
    if at >= end then Some(([], at))
    else
      match Subidentifier(data, at, 0)
      case None => None
      case Some((v, next)) => Prepend([v], MoreArcs(data, next, end))
  }

  function Decoded(data: seq<byte>, offset: nat, end: nat): Option<(seq<nat>, nat)>
    requires offset <= |data|
  {
    match Subidentifier(data, offset, 0)
    case None => None
    case Some((v, at)) => Prepend(FirstArcs(v), MoreArcs(data, at, end))
  }

  // ---------- the encoder of the standard ----------

  /** All octets but the last of an arc have their top bit set. */
  function Leading(n: nat): seq<byte> {
    if n == 0 then [] else Leading(n / 128) + [128 + n % 128]
  }

  function EncodeArc(n: nat): (r: seq<byte>)
    ensures r != []
  {
    Leading(n / 128) + [n % 128]
  }

  function EncodeArcs(arcs: seq<nat>): seq<byte> {
    if arcs == [] then [] else EncodeArc(arcs[0]) + EncodeArcs(arcs[1..])
  }

  /** An object identifier has two arcs at least, the first 0, 1 or 2, the second below 40 under 0 and 1. */
  predicate IsOid(arcs: seq<nat>) {
    |arcs| >= 2 && arcs[0] <= 2 && (arcs[0] < 2 ==> arcs[1] < 40)
  }

  function EncodeOid(arcs: seq<nat>): seq<byte>
    requires IsOid(arcs)
  {
    EncodeArc(40 * arcs[0] + arcs[1]) + EncodeArcs(arcs[2..])
  }

  // ---------- the round trip ----------

  predicate At(data: seq<byte>, offset: nat, s: seq<byte>) {
    offset + |s| <= |data| && data[offset..offset + |s|] == s
  }

  lemma {:induction false} LeadingIsRead(data: seq<byte>, offset: nat, n: nat)
    requires At(data, offset, Leading(n))
    ensures Subidentifier(data, offset, 0) == Subidentifier(data, offset + |Leading(n)|, n)
  {
    if n > 0 {
      var front := Leading(n / 128);
      assert data[offset..offset + |front|] == Leading(n)[..|front|] == front;
      LeadingIsRead(data, offset, n / 128);
      assert data[offset + |front|] == Leading(n)[|front|] == 128 + n % 128;
    }
  }

  lemma ArcIsRead(data: seq<byte>, offset: nat, n: nat)
    requires At(data, offset, EncodeArc(n))
    ensures Subidentifier(data, offset, 0) == Some((n, offset + |EncodeArc(n)|))
  {
    var front := Leading(n / 128);
    assert data[offset..offset + |front|] == EncodeArc(n)[..|front|] == front;
    LeadingIsRead(data, offset, n / 128);
    assert data[offset + |front|] == EncodeArc(n)[|front|] == n % 128;
  }

  lemma {:induction false} ArcsAreRead(data: seq<byte>, offset: nat, arcs: seq<nat>)
    requires At(data, offset, EncodeArcs(arcs))
    ensures MoreArcs(data, offset, offset + |EncodeArcs(arcs)|) == Some((arcs, offset + |EncodeArcs(arcs)|))
    decreases |arcs|
  {
    if arcs != [] {
      var a, rest := EncodeArc(arcs[0]), EncodeArcs(arcs[1..]);
      Halves(data, offset, a, rest);
      ArcIsRead(data, offset, arcs[0]);
      ArcsAreRead(data, offset + |a|, arcs[1..]);
      assert [arcs[0]] + arcs[1..] == arcs;
    }
  }

  lemma Halves(data: seq<byte>, offset: nat, a: seq<byte>, b: seq<byte>)
    requires At(data, offset, a + b)
    ensures At(data, offset, a) && At(data, offset + |a|, b)
  {
    assert data[offset..offset + |a|] == (a + b)[..|a|];
    assert data[offset + |a|..offset + |a| + |b|] == (a + b)[|a|..];
  }

  /** Wherever an encoded identifier stands in the data, it decodes to its arcs, of any size, also for second
      arcs of 40 and more below 2, and exactly its octets are read. */
  lemma OidRoundTrip(data: seq<byte>, offset: nat, arcs: seq<nat>)
    requires IsOid(arcs) && At(data, offset, EncodeOid(arcs))
    ensures Decoded(data, offset, offset + |EncodeOid(arcs)|) == Some((arcs, offset + |EncodeOid(arcs)|))
  {
    var a, rest := EncodeArc(40 * arcs[0] + arcs[1]), EncodeArcs(arcs[2..]);
    Halves(data, offset, a, rest);
    ArcIsRead(data, offset, 40 * arcs[0] + arcs[1]);
    ArcsAreRead(data, offset + |a|, arcs[2..]);
    assert FirstArcs(40 * arcs[0] + arcs[1]) == arcs[..2];
    assert arcs[..2] + arcs[2..] == arcs;
  }
}
