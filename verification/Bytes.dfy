/** Bytes and big-endian integers. */
module Bytes {

  type byte = x: int | 0 <= x < 256

  /** `s[:k]` and `s[k:]`, which never fail. */
  function Take(s: seq<byte>, k: nat): seq<byte> { if k <= |s| then s[..k] else s }
  function Drop(s: seq<byte>, k: nat): seq<byte> { if k <= |s| then s[k..] else [] }

  lemma TakeAndDrop(s: seq<byte>, k: nat)
    ensures Take(s, k) + Drop(s, k) == s
    ensures k > 0 && s != [] ==> |Drop(s, k)| < |s|
  {
  }

  lemma Regroup(a: seq<byte>, b: seq<byte>, c: seq<byte>)
    ensures a + (b + c) == a + b + c
  {
  }

  function Pow256(k: nat): (r: nat)
    ensures r > 0
  {
    if k == 0 then 1 else 256 * Pow256(k - 1)
  }

  /** `n.to_bytes(k, 'big')` for an n that fits. */
  function BigEndian(n: nat, k: nat): (r: seq<byte>)
    requires n < Pow256(k)
    ensures |r| == k
  {
    if k == 0 then [] else BigEndian(n / 256, k - 1) + [n % 256]
  }

  /** `int.from_bytes(s, 'big')` */
  function FromBigEndian(s: seq<byte>): (n: nat)
    ensures n < Pow256(|s|)
  {
    if s == [] then 0 else 256 * FromBigEndian(s[..|s| - 1]) + s[|s| - 1]
  }

  lemma {:induction false} BigEndianRoundTrip(n: nat, k: nat)
    requires n < Pow256(k)
    ensures FromBigEndian(BigEndian(n, k)) == n
  {
    if k > 0 {
      BigEndianRoundTrip(n / 256, k - 1);
      assert BigEndian(n, k)[..k - 1] == BigEndian(n / 256, k - 1);
    }
  }

  lemma LastDigit(n: nat, d: byte)
    ensures (256 * n + d) / 256 == n && (256 * n + d) % 256 == d
  {
  }

  lemma {:induction false} FromBigEndianRoundTrip(s: seq<byte>)
    ensures BigEndian(FromBigEndian(s), |s|) == s
  {
    if s != [] {
      var init, last := s[..|s| - 1], s[|s| - 1];
      FromBigEndianRoundTrip(init);
      LastDigit(FromBigEndian(init), last);
      assert s == init + [last];
    }
  }

  lemma TwoOctets(s: seq<byte>)
    requires |s| == 2
    ensures var high: int, low: int := s[0], s[1]; FromBigEndian(s) == 256 * high + low
  {
    assert s[..1] == [s[0]] && [s[0]][..0] == [];
    assert FromBigEndian([s[0]]) == s[0];
  }
}
