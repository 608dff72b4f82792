/** EF_UServiceTable of pySim/ts_31_102_telecom.py: services numbered from 1, eight to an octet, the lowest
    in the lowest bit. */
module ServiceTable {
  import opened Wrappers

  type Service = n: nat | n >= 1 witness 1

  /** What `_decode_bin` builds, down to the flag `activated`. */
  type Table = map<Service, bool>

  function ByteOffset(s: Service): nat { (s - 1) / 8 }
  function BitOffset(s: Service): nat { (s - 1) % 8 }

  /** `1 << k` in an octet. */
  function Mask(k: nat): bv8
    requires k < 8
  {
    if k == 0 then 1 else if k == 1 then 2 else if k == 2 then 4 else if k == 3 then 8
    else if k == 4 then 16 else if k == 5 then 32 else if k == 6 then 64 else 128
  }

  predicate HasBit(b: bv8, k: nat)
    requires k < 8
  {
    b & Mask(k) != 0
  }

  /** Whether service `s` is active in a table file. */
  predicate Active(data: seq<bv8>, s: Service)
    requires ByteOffset(s) < |data|
  {
    HasBit(data[ByteOffset(s)], BitOffset(s))
  }

  /** Service `s` is bit (s - 1) mod 8 of octet (s - 1) / 8, counted from the lowest. */
  lemma ActiveBit(data: seq<bv8>, s: Service)
    ensures ByteOffset(s) < |data| <==> s <= 8 * |data|
    ensures s <= 8 * |data| ==> (Active(data, s) <==> (data[(s - 1) / 8] >> ((s - 1) % 8)) & 1 == 1)
  {
    if s <= 8 * |data| { BitShifted(data[(s - 1) / 8], (s - 1) % 8); }
  }

  lemma BitShifted(b: bv8, k: nat)
    requires k < 8
    ensures HasBit(b, k) <==> (b >> k) & 1 == 1
  {
    if k < 4 { LowBitShifted(b, k); } else { HighBitShifted(b, k); }
  }

  lemma LowBitShifted(b: bv8, k: nat)
    requires k < 4
    ensures HasBit(b, k) <==> (b >> k) & 1 == 1
  {
    match k {
      case 0 => assert b >> 0 == b;
      case 1 => assert (b & 2 != 0) <==> (b >> 1) & 1 == 1;
      case 2 => assert (b & 4 != 0) <==> (b >> 2) & 1 == 1;
      case _ => assert (b & 8 != 0) <==> (b >> 3) & 1 == 1;
    }
  }

  lemma HighBitShifted(b: bv8, k: nat)
    requires 4 <= k < 8
    ensures HasBit(b, k) <==> (b >> k) & 1 == 1
  {
    match k {
      case 4 => assert (b & 16 != 0) <==> (b >> 4) & 1 == 1;
      case 5 => assert (b & 32 != 0) <==> (b >> 5) & 1 == 1;
      case 6 => assert (b & 64 != 0) <==> (b >> 6) & 1 == 1;
      case _ => assert (b & 128 != 0) <==> (b >> 7) & 1 == 1;
    }
  }

  lemma BitOperations(b: bv8, k: nat, j: nat)
    requires k < 8 && j < 8
    ensures HasBit(b | Mask(k), j) <==> j == k || HasBit(b, j)
    ensures HasBit(b & !Mask(k), j) <==> j != k && HasBit(b, j)
    ensures !HasBit(0, j)
  {
  }

  lemma BitsDetermine(a: bv8, b: bv8)
    requires forall k | 0 <= k < 8 :: HasBit(a, k) == HasBit(b, k)
    ensures a == b
  {
    assert HasBit(a, 0) == HasBit(b, 0) && HasBit(a, 1) == HasBit(b, 1);
    assert HasBit(a, 2) == HasBit(b, 2) && HasBit(a, 3) == HasBit(b, 3);
    assert HasBit(a, 4) == HasBit(b, 4) && HasBit(a, 5) == HasBit(b, 5);
    assert HasBit(a, 6) == HasBit(b, 6) && HasBit(a, 7) == HasBit(b, 7);
  }

  /** Two files of one length that agree on every service are the same. */
  lemma ServicesDetermine(a: seq<bv8>, b: seq<bv8>)
    requires |a| == |b| && forall s: Service | ByteOffset(s) < |a| :: Active(a, s) == Active(b, s)
    ensures a == b
  {
    forall i | 0 <= i < |a| ensures a[i] == b[i] {
      forall k | 0 <= k < 8 ensures HasBit(a[i], k) == HasBit(b[i], k) {
        var s: Service := 8 * i + k + 1;
        assert ByteOffset(s) == i && BitOffset(s) == k;
        assert Active(a, s) == Active(b, s);
      }
      BitsDetermine(a[i], b[i]);
    }
  }

  // ---------- decoding and encoding ----------

  ghost predicate IsDecoding(data: seq<bv8>, t: Table) {
    forall s: Service {:trigger s in t} :: (s in t <==> ByteOffset(s) < |data|) && (s in t ==> t[s] == Active(data, s))
  }

  /** As short as the services in the table allow, with exactly the activated ones set. */
  ghost predicate IsEncoding(t: Table, data: seq<bv8>) {
    && (forall s <- t :: ByteOffset(s) < |data|)
    && (data != [] ==> exists s <- t :: ByteOffset(s) == |data| - 1)
    && (forall s: Service | ByteOffset(s) < |data| :: Active(data, s) <==> s in t && t[s])
  }

  /** `_decode_bin` */
  method DecodeBin(data: seq<bv8>) returns (ret: Table)
    ensures IsDecoding(data, ret)
  {
    ret := map[];
    for i := 0 to |data|
      invariant DecodedTo(data, ret, 8 * i)
    {
      var b := data[i];
      for bitno := 0 to 8
        invariant DecodedTo(data, ret, 8 * i + bitno)
      {
        var s: Service := i * 8 + bitno + 1;
        assert ByteOffset(s) == i && BitOffset(s) == bitno;
        ret := ret[s := HasBit(b, bitno)];
      }
    }
  }

  ghost predicate DecodedTo(data: seq<bv8>, t: Table, n: nat)
    requires n <= 8 * |data|
  {
    forall s: Service {:trigger s in t} :: (s in t <==> s <= n) && (s in t ==> t[s] == Active(data, s))
  }

  /** `_encode_bin` */
  method EncodeBin(t: Table) returns (out: array<bv8>)
    ensures fresh(out) && IsEncoding(t, out[..])
  {
    var binLen: nat := 0;
    var todo := t.Keys;
    while todo != {}
      invariant todo <= t.Keys
      invariant forall s <- t.Keys - todo :: ByteOffset(s) < binLen
      invariant binLen > 0 ==> exists s <- t :: ByteOffset(s) == binLen - 1
      decreases |todo|
    {
      var s :| s in todo;
      if ByteOffset(s) >= binLen { binLen := ByteOffset(s) + 1; }
      todo := todo - {s};
    }
    out := new bv8[binLen](_ => 0);
    forall s: Service | ByteOffset(s) < binLen ensures !Active(out[..], s) { BitOperations(0, 0, BitOffset(s)); }
    todo := t.Keys;
    while todo != {}
      invariant todo <= t.Keys
      invariant forall s: Service | ByteOffset(s) < binLen :: Active(out[..], s) <==> s in t && s !in todo && t[s]
      decreases |todo|
    {
      var s :| s in todo;
      if t[s] { SetBit(out, s, true); }
      todo := todo - {s};
    }
  }

  function WithBit(b: bv8, k: nat, on: bool): bv8
    requires k < 8
  {
    if on then b | Mask(k) else b & !Mask(k)
  }

  lemma WithBitSets(data: seq<bv8>, i: nat, k: nat, on: bool, i': nat, j: nat)
    requires i < |data| && i' < |data| && k < 8 && j < 8
    ensures HasBit(data[i := WithBit(data[i], k, on)][i'], j) <==> if i' == i && j == k then on else HasBit(data[i'], j)
  {
    BitOperations(data[i], k, j);
  }

  lemma OffsetsIdentify(r: Service, s: Service)
    ensures ByteOffset(r) == ByteOffset(s) && BitOffset(r) == BitOffset(s) <==> r == s
  {
  }

  /** Set or clear the bit of one service in place. */
  method SetBit(a: array<bv8>, s: Service, on: bool)
    requires ByteOffset(s) < a.Length
    modifies a
    ensures forall r: Service | ByteOffset(r) < a.Length ::
              Active(a[..], r) <==> if r == s then on else old(Active(a[..], r))
  {
    var i := ByteOffset(s);
    ghost var before := a[..];
    a[i] := WithBit(a[i], BitOffset(s), on);
    assert a[..] == before[i := WithBit(before[i], BitOffset(s), on)];
    forall r: Service | ByteOffset(r) < a.Length
      ensures Active(a[..], r) <==> if r == s then on else Active(before, r)
    {
      WithBitSets(before, i, BitOffset(s), on, ByteOffset(r), BitOffset(r));
      OffsetsIdentify(r, s);
    }
  }

  /** Decoding a table file and encoding the result gives the file back. */
  lemma EncodeOfDecode(data: seq<bv8>, t: Table, out: seq<bv8>)
    requires IsDecoding(data, t) && IsEncoding(t, out)
    ensures out == data
  {
    if data != [] {
      var last: Service := 8 * |data|;
      assert last in t;
    }
    assert |out| <= |data|;
    ServicesDetermine(out, data);
  }

  /** Encoding a table and decoding the result gives every stated service and reports all others inactive. */
  lemma DecodeOfEncode(t: Table, data: seq<bv8>, t': Table)
    requires IsEncoding(t, data) && IsDecoding(data, t')
    ensures t.Keys <= t'.Keys && forall s <- t' :: t'[s] == (s in t && t[s])
  {
    forall s | s in t ensures s in t' { }
  }

  // ---------- ust_update ----------

  /** `ust_update` on the contents of the file; None where the source raises, before anything is written:
      exactly if a service lies beyond the end of the file. */
  method UstUpdate(data: seq<bv8>, activate: seq<Service>, deactivate: seq<Service>) returns (r: Option<seq<bv8>>)
    ensures r.Some? <==> forall s <- activate + deactivate :: ByteOffset(s) < |data|
    ensures r.Some? ==> |r.value| == |data| &&
                        forall s: Service | ByteOffset(s) < |data| ::
                          Active(r.value, s) <==> s !in deactivate && (s in activate || Active(data, s))
  {
    var a := new bv8[|data|](i requires 0 <= i < |data| => data[i]);
    assert a[..] == data;
    var ok := SetBits(a, activate, true);
    if !ok { return None; }
    ok := SetBits(a, deactivate, false);
    if !ok { return None; }
    r := Some(a[..]);
  }

  method SetBits(a: array<bv8>, services: seq<Service>, on: bool) returns (ok: bool)
    modifies a
    ensures ok <==> forall s <- services :: ByteOffset(s) < a.Length
    ensures ok ==> forall s: Service | ByteOffset(s) < a.Length ::
                     Active(a[..], s) <==> if s in services then on else old(Active(a[..], s))
  {
    for i := 0 to |services|
      invariant forall s <- services[..i] :: ByteOffset(s) < a.Length
      invariant forall s: Service | ByteOffset(s) < a.Length ::
                  Active(a[..], s) <==> if s in services[..i] then on else old(Active(a[..], s))
    {
      assert services[..i + 1] == services[..i] + [services[i]];
      if ByteOffset(services[i]) >= a.Length { return false; }
      SetBit(a, services[i], on);
    }
    assert services[..|services|] == services;
    ok := true;
  }
}
