/** `_dbi_binary_quote` of pySim-prog.py: binary data as a string without NUL and quote characters.

    Every byte is moved down by an offset, and the few that would land on 0, 1 or 39 are escaped.
    The offset is chosen so that the escapes are as few as possible. */
module DbiQuote {
  import opened Wrappers
  import opened Bytes

  const QUOTE: byte := 39

  predicate IsOffset(e: int) { 1 <= e <= 255 && e != QUOTE }

  /** `x & 0xff`, for the sums and differences of two bytes that occur here. */
  function Low8(x: int): (r: byte)
    requires 0 <= x < 512
    ensures r == if x < 256 then x else x - 256
  {
    x % 256
  }

  /** The bytes that offset `e` moves onto 0, 1 or 39. */
  predicate Hits(e: byte, c: byte) {
    c == e || c == Low8(e + 1) || c == Low8(e + QUOTE)
  }

  /** How many bytes of `s` offset `e` has to escape. */
  function Cost(s: seq<byte>, e: byte): (m: nat)
    ensures m <= |s|
  {
    if s == [] then 0 else Cost(s[..|s| - 1], e) + if Hits(e, s[|s| - 1]) then 1 else 0
  }

  lemma {:induction false} CostCounts(s: seq<byte>, e: byte)
    ensures Cost(s, e) == multiset(s)[e] + multiset(s)[Low8(e + 1)] + multiset(s)[Low8(e + QUOTE)]
  {
    if s != [] {
      CostCounts(s[..|s| - 1], e);
      assert s == s[..|s| - 1] + [s[|s| - 1]];
    }
  }

  function Shift(c: byte, e: byte): (x: byte)
    ensures x == 0 || x == 1 || x == QUOTE <==> Hits(e, c)
    ensures Low8(x + e) == c
  {
    Low8(256 + c - e)
  }

  function QuotedByte(c: byte, e: byte): (r: seq<byte>)
    ensures |r| == if Hits(e, c) then 2 else 1
    ensures forall x <- r :: x != 0 && x != QUOTE
  {
    var x := Shift(c, e);
    if x == 0 || x == 1 || x == QUOTE then [1, x + 1] else [x]
  }

  function QuotedBytes(s: seq<byte>, e: byte): seq<byte> {
    if s == [] then [] else QuotedBytes(s[..|s| - 1], e) + QuotedByte(s[|s| - 1], e)
  }

  /** The reader's side: the first byte is the offset, 1 escapes the byte after it. */
  function Unquote(out: seq<byte>): Option<seq<byte>> {
    if out == [] then None else UnquoteBytes(out[1..], out[0])
  }

  function Unescaped(y: int): byte
    requires 0 <= y < 256
  {
    Low8(y + 255)
  }

  function UnquoteBytes(t: seq<byte>, e: byte): Option<seq<byte>> {
    if t == [] then Some([])
    else if t[0] != 1 then
      match UnquoteBytes(t[1..], e)
      case None => None
      case Some(rest) => Some([Low8(t[0] + e)] + rest)
    else if |t| == 1 then None
    else
      match UnquoteBytes(t[2..], e)
      case None => None
      case Some(rest) => Some([Low8(Unescaped(t[1]) + e)] + rest)
  }

  lemma UnquoteByte(c: byte, e: byte, tail: seq<byte>)
    requires UnquoteBytes(tail, e).Some?
    ensures UnquoteBytes(QuotedByte(c, e) + tail, e) == Some([c] + UnquoteBytes(tail, e).value)
  {
    var q := QuotedByte(c, e);
    assert (q + tail)[|q|..] == tail;
    assert q[0] == 1 ==> Unescaped(q[1]) == Shift(c, e);
  }

  lemma {:induction false} UnquoteAfter(s: seq<byte>, e: byte, tail: seq<byte>, rest: seq<byte>)
    requires UnquoteBytes(tail, e) == Some(rest)
    ensures UnquoteBytes(QuotedBytes(s, e) + tail, e) == Some(s + rest)
  {
    if s == [] {
      assert QuotedBytes(s, e) + tail == tail && s + rest == rest;
    } else {
      var init, c := s[..|s| - 1], s[|s| - 1];
      UnquoteByte(c, e, tail);
      UnquoteAfter(init, e, QuotedByte(c, e) + tail, [c] + rest);
      Regroup(QuotedBytes(init, e), QuotedByte(c, e), tail);
      Regroup(init, [c], rest);
      assert init + [c] == s;
    }
  }

  lemma {:induction false} QuotedBytesShape(s: seq<byte>, e: byte)
    ensures forall x <- QuotedBytes(s, e) :: x != 0 && x != QUOTE
    ensures |QuotedBytes(s, e)| == |s| + Cost(s, e)
  {
    if s != [] { QuotedBytesShape(s[..|s| - 1], e); }
  }

  // ---------- the averaging argument ----------

  /** Number of offsets up to `k`. */
  function Offsets(k: nat): nat {
    if k == 0 then 0 else Offsets(k - 1) + if IsOffset(k) then 1 else 0
  }

  /** Escapes that all offsets up to `k` cause together. */
  function TotalCost(s: seq<byte>, k: nat): nat {
    if k == 0 then 0 else TotalCost(s, k - 1) + if IsOffset(k) then Cost(s, k) else 0
  }

  function TotalHits(c: byte, k: nat): nat {
    if k == 0 then 0 else TotalHits(c, k - 1) + if IsOffset(k) && Hits(k, c) then 1 else 0
  }

  function UpTo(i: int, k: nat): nat {
    if 1 <= i <= k then 1 else 0
  }

  /** The offset that moves `c` onto `d`. */
  function OffsetOnto(c: byte, d: byte): byte {
    if d <= c then c - d else c - d + 256
  }

  /** A byte is hit by three offsets at most. */
  lemma {:induction false} ByteIsHitThrice(c: byte, k: nat)
    requires k <= 255
    ensures TotalHits(c, k) <= UpTo(OffsetOnto(c, 0), k) + UpTo(OffsetOnto(c, 1), k) + UpTo(OffsetOnto(c, QUOTE), k)
  {
    if k > 0 {
      ByteIsHitThrice(c, k - 1);
      assert Hits(k, c) ==> k == OffsetOnto(c, 0) || k == OffsetOnto(c, 1) || k == OffsetOnto(c, QUOTE);
    }
  }

  lemma {:induction false} TotalCostStep(s: seq<byte>, k: nat)
    requires s != []
    ensures TotalCost(s, k) == TotalCost(s[..|s| - 1], k) + TotalHits(s[|s| - 1], k)
  {
    if k > 0 { TotalCostStep(s, k - 1); }
  }

  lemma {:induction false} TotalCostBound(s: seq<byte>, k: nat)
    requires k <= 255
    ensures TotalCost(s, k) <= 3 * |s|
  {
    if s == [] {
      NothingCostsNothing(k);
    } else {
      TotalCostStep(s, k);
      ByteIsHitThrice(s[|s| - 1], k);
      TotalCostBound(s[..|s| - 1], k);
    }
  }

  lemma {:induction false} NothingCostsNothing(k: nat)
    ensures TotalCost([], k) == 0
  {
    if k > 0 { NothingCostsNothing(k - 1); }
  }

  lemma {:induction false} TotalCostAtLeast(s: seq<byte>, m: nat, k: nat)
    requires forall i | 1 <= i <= k && IsOffset(i) :: m <= Cost(s, i)
    ensures m * Offsets(k) <= TotalCost(s, k)
  {
    if k > 0 {
      TotalCostAtLeast(s, m, k - 1);
      assert m * (Offsets(k - 1) + 1) == m * Offsets(k - 1) + m;
    }
  }

  lemma {:induction false} OffsetCount(k: nat)
    requires k <= 255
    ensures Offsets(k) == if k < QUOTE then k else k - 1
  {
    if k > 0 { OffsetCount(k - 1); }
  }

  lemma AverageBound(s: seq<byte>, m: nat, k: nat)
    requires QUOTE <= k <= 255 && forall i | 1 <= i <= k && IsOffset(i) :: m <= Cost(s, i)
    ensures m * (k - 1) <= 3 * |s|
  {
    TotalCostAtLeast(s, m, k);
    OffsetCount(k);
    TotalCostBound(s, k);
  }

  /** What the best offset costs: at most 3 escapes in 254 bytes, by averaging over all offsets. */
  lemma MinimumIsSmall(s: seq<byte>, m: nat)
    requires forall i | IsOffset(i) :: m <= Cost(s, i)
    ensures 254 * m <= 3 * |s|
  {
    AverageBound(s, m, 255);
  }

  lemma Quotient(m: nat, n: nat)
    requires 254 * m <= n
    ensures m <= n / 254
  {
  }

  // ---------- the method ----------

  /** The source's `cnt`, as far as its loop over the input has come. */
  ghost predicate CountsOf(cnt: map<int, nat>, s: seq<byte>) {
    forall c: byte :: Get(cnt, c) == multiset(s)[c]
  }

  function Get(cnt: map<int, nat>, c: int): nat {
    if c in cnt then cnt[c] else 0
  }

  method DbiBinaryQuote(s: seq<byte>) returns (out: seq<byte>)
    ensures s != [] ==> 0 !in out && 39 !in out
    ensures s == [] ==> out == [0]
    ensures Unquote(out) == Some(s)
    ensures s != [] ==> IsOffset(out[0]) && forall i | IsOffset(i) :: Cost(s, out[0]) <= Cost(s, i)
    ensures s != [] ==> |out| == 1 + |s| + Cost(s, out[0]) && |out| <= 1 + |s| + 3 * |s| / 254
  {
    var cnt := CountBytes(s);
    var e := BestOffset(s, cnt);
    out := QuoteWith(s, e);
    QuotedBytesShape(s, e);
    UnquoteAfter(s, e, [], []);
    assert out[1..] == QuotedBytes(s, e) + [] && s + [] == s;
    if s != [] {
      MinimumIsSmall(s, Cost(s, e));
      Quotient(Cost(s, e), 3 * |s|);
    }
  }

  /** The output loop. */
  method QuoteWith(s: seq<byte>, e: byte) returns (out: seq<byte>)
    ensures out == [e] + QuotedBytes(s, e)
  {
    out := [e];
    for k := 0 to |s|
      invariant out == [e] + QuotedBytes(s[..k], e)
    {
      assert s[..k + 1][..k] == s[..k];
      out := AppendQuoted(out, s[k], e);
    }
    assert s[..|s|] == s;
  }

  method AppendQuoted(out: seq<byte>, c: byte, e: byte) returns (r: seq<byte>)
    ensures r == out + QuotedByte(c, e)
  {
    var x := Shift(c, e);
    if x == 0 || x == 1 || x == QUOTE {
      r := out + [1];
      r := r + [x + 1];
    } else {
      r := out + [x];
    }
  }

  method CountBytes(s: seq<byte>) returns (cnt: map<int, nat>)
    ensures CountsOf(cnt, s)
  {
    cnt := map[];
    for k := 0 to |s|
      invariant CountsOf(cnt, s[..k])
    {
      var c := s[k];
      assert s[..k + 1] == s[..k] + [c];
      cnt := cnt[c := Get(cnt, c) + 1];
    }
    assert s[..|s|] == s;
  }

  method BestOffset(s: seq<byte>, cnt: map<int, nat>) returns (e: byte)
    requires CountsOf(cnt, s)
    ensures s == [] ==> e == 0
    ensures s != [] ==> IsOffset(e) && forall i | IsOffset(i) :: Cost(s, e) <= Cost(s, i)
  {
    e := 0;
    var m := |s|;
    var i := 1;
    while i < 256
      invariant 1 <= i <= 256
      invariant if e == 0 then m == |s| else IsOffset(e) && m == Cost(s, e) && m < |s|
      invariant forall j | 1 <= j < i && IsOffset(j) :: m <= Cost(s, j)
    {
      if i != QUOTE {
        var sum := Get(cnt, i) + Get(cnt, Low8(i + 1)) + Get(cnt, Low8(i + QUOTE));
        CostCounts(s, i);
        if sum < m {
          m := sum;
          e := i;
          if m == 0 { break; }
        }
      }
      i := i + 1;
    }
    if s != [] && e == 0 { MinimumIsSmall(s, m); }
  }
}
