/** BER-TLV files: SET DATA and RETRIEVE DATA (pySim/commands.py) against a card that collects and serves
    objects in blocks (section 11.3 of ETSI TS 102 221). */
module BerTlv {
  import opened Wrappers
  import opened Bytes
  import opened CardMemory

  // ---------- lengths and objects ----------

  /** A BER length in the definite form (section 8.1.3 of ITU-T X.690), up to four octets of value. */
  function EncodeLen(n: nat): (r: seq<byte>)
    requires n < Pow256(4)
    ensures r != []
  {
    if n < 0x80 then [n]
    else if n <= 0xff then [0x81] + BigEndian(n, 1)
    else if n <= 0xffff then [0x82] + BigEndian(n, 2)
    else if n <= 0xffffff then [0x83] + BigEndian(n, 3)
    else [0x84] + BigEndian(n, 4)
  }

  function Tlv(tag: byte, value: seq<byte>): (r: seq<byte>)
    requires |value| < Pow256(4)
    ensures |r| >= 2
  {
    [tag] + EncodeLen(|value|) + value
  }

  /** An object octet by octet: the tag, the length, and the value at its end.  A length below 128 is one octet; any
      other is given in as few octets as it takes, the highest first, behind one that tells how many. */
  ghost predicate Holds(tlv: seq<byte>, tag: byte, value: seq<byte>) {
    && |tlv| >= 2 + |value| && tlv[0] == tag && tlv[|tlv| - |value|..] == value
    && (if |value| < 128 then |tlv| == 2 + |value| && tlv[1] == |value|
        else
          var k := |tlv| - |value| - 2;
          && 1 <= k <= 4 && tlv[1] == 0x80 + k && tlv[2] != 0 && FromBigEndian(tlv[2..2 + k]) == |value|)
  }

  lemma TlvHolds(tag: byte, value: seq<byte>)
    requires |value| < Pow256(4)
    ensures Holds(Tlv(tag, value), tag, value)
  {
    if |value| >= 0x80 {
      LongTlvHolds(tag, value, |EncodeLen(|value|)| - 1);
    }
  }

  lemma LongTlvHolds(tag: byte, value: seq<byte>, k: nat)
    requires 1 <= k <= 4 && Pow256(k - 1) <= |value| < Pow256(k) && |value| >= 0x80
    ensures Holds([tag] + ([0x80 + k] + BigEndian(|value|, k)) + value, tag, value)
  {
    var tlv := [tag] + ([0x80 + k] + BigEndian(|value|, k)) + value;
    assert tlv[2..2 + k] == BigEndian(|value|, k) && tlv[2] == BigEndian(|value|, k)[0];
    BigEndianRoundTrip(|value|, k);
    HighestOctet(|value|, k);
  }

  lemma {:induction false} HighestOctet(n: nat, k: nat)
    requires 1 <= k && Pow256(k - 1) <= n < Pow256(k)
    ensures BigEndian(n, k)[0] != 0
  {
    if k > 1 { HighestOctet(n / 256, k - 1); }
  }

  /** How long the object is that starts with `s`, as soon as `s` tells. */
  function ObjectLength(s: seq<byte>): Option<nat> {
    if |s| < 2 then None
    else
      var first: int := s[1];
      if first < 0x80 then Some(2 + first)
      else
        var k := first - 0x80;
        if k == 0 || k > 4 || |s| < 2 + k then None else Some(2 + k + FromBigEndian(s[2..2 + k]))
  }

  /** Which values fit a single command without a secure channel; longer ones need several fragments. */
  lemma OneFragmentValues(tag: byte, value: seq<byte>)
    requires |value| < Pow256(4)
    ensures |Tlv(tag, value)| <= 255 <==> |value| <= 252
    ensures |value| > 252 ==> |Fragments(Tlv(tag, value), 255, true)| > 1
  {
    FragmentsPartition(Tlv(tag, value), 255, true);
  }

  predicate CompleteAt(s: seq<byte>, n: nat)
    requires n <= |s|
  {
    ObjectLength(s[..n]) == Some(n)
  }

  /** With the last octet, and not before, it shows that the object is complete. */
  ghost predicate SelfDelimiting(s: seq<byte>) {
    |s| >= 2 && forall n {:trigger CompleteAt(s, n)} | 0 <= n <= |s| :: CompleteAt(s, n) <==> n == |s|
  }

  lemma TlvIsSelfDelimiting(tag: byte, value: seq<byte>)
    requires |value| < Pow256(4)
    ensures SelfDelimiting(Tlv(tag, value))
  {
    forall n | 0 <= n <= |Tlv(tag, value)|
      ensures CompleteAt(Tlv(tag, value), n) <==> n == |Tlv(tag, value)|
    {
      if |value| < 0x80 {
        assert n >= 2 ==> Tlv(tag, value)[..n][1] == |value|;
      } else {
        LongLengthShows(tag, |value|, |EncodeLen(|value|)| - 1, value, n);
      }
    }
  }

  lemma LongLengthShows(tag: byte, length: nat, k: nat, value: seq<byte>, n: nat)
    requires 1 <= k <= 4 && length < Pow256(k) && length == |value|
    requires n <= 2 + k + |value|
    ensures CompleteAt([tag] + ([0x80 + k] + BigEndian(length, k)) + value, n) <==> n == 2 + k + |value|
  {
    var p := ([tag] + ([0x80 + k] + BigEndian(length, k)) + value)[..n];
    if n >= 2 + k {
      var head := [tag] + ([0x80 + k] + BigEndian(length, k));
      assert p[..2 + k] == head && head[2..] == BigEndian(length, k) && p[2..2 + k] == p[..2 + k][2..];
      BigEndianRoundTrip(length, k);
    }
  }

  // ---------- the card ----------

  type Positive = n: nat | n > 0 witness 1

  /** One SET DATA: the data it carries and whether P1 marks it as the first. */
  datatype Fragment = Fragment(first: bool, data: seq<byte>)

  /** `interimSw` is what the card answers while it expects more data: 63F1 by section 11.3.2 of ETSI
      TS 102 221.  `blockSize` is how much of an object it serves at a time. */
  class TlvFile {
    const interimSw: StatusWord
    const blockSize: Positive
    var objects: map<byte, seq<byte>>
    var pending: seq<byte>                // received so far of an incomplete object
    var left: seq<byte>                   // still to serve of the object being retrieved
    ghost var received: seq<Fragment>     // the SET DATA commands carried out
    ghost var refusals: nat

    constructor (interimSw: StatusWord, blockSize: Positive, objects: map<byte, seq<byte>>)
      ensures this.interimSw == interimSw && this.blockSize == blockSize && this.objects == objects
      ensures pending == [] && left == [] && received == [] && refusals == 0
    {
      this.interimSw, this.blockSize, this.objects := interimSw, blockSize, objects;
      pending, left, received, refusals := [], [], [], 0;
    }

    method Select() returns (ok: bool)
      modifies this`refusals
      ensures refusals == old(refusals) + if ok then 0 else 1
    {
      ok := *;
      if !ok { refusals := refusals + 1; }
    }

    /** A lone tag deletes; a complete object is stored; anything else waits for more. */
    method SetData(f: Fragment) returns (sw: StatusWord)
      modifies this`objects, this`pending, this`received, this`refusals
      ensures refusals > old(refusals)
              ==> sw == SW_ERROR && objects == old(objects) && pending == old(pending) && received == old(received)
      ensures refusals == old(refusals)
              ==> received == old(received) + [f] && var p := (if f.first then [] else old(pending)) + f.data;
                if f.first && |f.data| == 1 then sw == SW_OK && objects == old(objects) - {f.data[0]}
                else if ObjectLength(p) == Some(|p|) then sw == SW_OK && objects == old(objects)[p[0] := p]
                else sw == interimSw && objects == old(objects) && pending == p
      ensures refusals >= old(refusals)
    {
      var ok: bool := *;
      if !ok {
        refusals := refusals + 1;
        return SW_ERROR;
      }
      received := received + [f];
      pending := (if f.first then [] else pending) + f.data;
      if f.first && |f.data| == 1 {
        objects, pending := objects - {f.data[0]}, [];
        sw := SW_OK;
      } else if ObjectLength(pending) == Some(|pending|) {
        objects, pending := objects[pending[0] := pending], [];
        sw := SW_OK;
      } else {
        sw := interimSw;
      }
    }

    /** The next block of the object of that tag, or of the one being served. */
    method RetrieveData(first: bool, tag: byte) returns (data: seq<byte>, sw: StatusWord)
      modifies this`left, this`refusals
      ensures refusals > old(refusals) ==> sw == SW_ERROR && data == []
      ensures refusals == old(refusals) ==>
                if first && tag !in objects then sw == SW_ERROR && data == []
                else var s := if first then objects[tag] else old(left);
                     && data == Take(s, blockSize) && left == Drop(s, blockSize)
                     && sw == if left == [] then SW_OK else SW_MORE_DATA
      ensures refusals >= old(refusals)
    {
      var ok: bool := *;
      if !ok {
        refusals := refusals + 1;
        return [], SW_ERROR;
      }
      if first {
        if tag !in objects { return [], SW_ERROR; }
        left := objects[tag];
      }
      data, left := Take(left, blockSize), Drop(left, blockSize);
      sw := if left == [] then SW_OK else SW_MORE_DATA;
    }
  }

  // ---------- set_data and retrieve_data ----------

  datatype SetResult = Stored | SetFailed
  datatype GetResult = Object(value: seq<byte>) | GetFailed

  /** What `send_apdu_checksw` lets pass in `_set_data` and `_retrieve_data`: the default, 9000 alone.
      The methods below take the accepted status words as a parameter, to show what the loops do and
      what that restriction makes of them. */
  const CHECKED: set<StatusWord> := {SW_OK}

  predicate Accepting(accepted: set<StatusWord>) {
    SW_OK in accepted && SW_ERROR !in accepted
  }

  /** The fragments of an object in the order in which they are to be sent. */
  function Fragments(s: seq<byte>, n: nat, first: bool): seq<Fragment>
    requires n > 0
    decreases |s|
  {
    if s == [] then [] else [Fragment(first, Take(s, n))] + Fragments(Drop(s, n), n, false)
  }

  function Joined(fragments: seq<Fragment>): seq<byte> {
    if fragments == [] then [] else fragments[0].data + Joined(fragments[1..])
  }

  /** The fragments are the object, in order, none empty, all but the last as long as a command takes, and the first
      alone is marked first. */
  lemma {:induction false} FragmentsPartition(s: seq<byte>, n: nat, first: bool)
    requires n > 0
    ensures Joined(Fragments(s, n, first)) == s
    ensures forall i | 0 <= i < |Fragments(s, n, first)| ::
              var f := Fragments(s, n, first)[i];
              && 0 < |f.data| <= n && f.first == (first && i == 0)
              && (i < |Fragments(s, n, first)| - 1 ==> |f.data| == n)
    ensures |Fragments(s, n, first)| <= 1 <==> |s| <= n
    decreases |s|
  {
    if s != [] {
      FragmentsPartition(Drop(s, n), n, false);
      assert Take(s, n) + Drop(s, n) == s;
    }
  }

  method SetDataChecked(file: TlvFile, f: Fragment, accepted: set<StatusWord>) returns (ok: bool, ghost sw: StatusWord)
    requires Accepting(accepted)
    modifies file`objects, file`pending, file`received, file`refusals
    ensures ok <==> sw in accepted
    ensures file.refusals > old(file.refusals)
            ==> !ok && file.objects == old(file.objects) && file.received == old(file.received)
    ensures file.refusals == old(file.refusals) ==>
              file.received == old(file.received) + [f] &&
              var p := (if f.first then [] else old(file.pending)) + f.data;
              if f.first && |f.data| == 1 then ok && file.objects == old(file.objects) - {f.data[0]}
              else if ObjectLength(p) == Some(|p|) then ok && file.objects == old(file.objects)[p[0] := p]
              else sw == file.interimSw && file.objects == old(file.objects) && file.pending == p
    ensures file.refusals >= old(file.refusals)
  {
    var answer := file.SetData(f);
    sw := answer;
    ok := answer in accepted;
  }

  /** `set_data` with commands of up to `maxCmdLen` octets.  A card that answers 63F1 to an incomplete
      object, as the standard has it, makes the source give up after the first of several fragments. */
  method SetData(file: TlvFile, tag: byte, value: seq<byte>, maxCmdLen: nat) returns (r: SetResult)
    requires 2 <= maxCmdLen && |value| < Pow256(4)
    modifies file`objects, file`pending, file`received, file`refusals
    ensures file.refusals >= old(file.refusals)
    ensures r.SetFailed? ==> file.objects == old(file.objects)
    ensures r.Stored? && value == [] ==> file.objects == old(file.objects) - {tag}
    ensures r.Stored? && value != [] ==>
              && file.objects == old(file.objects)[tag := Tlv(tag, value)] && Holds(file.objects[tag], tag, value)
              && file.received == old(file.received) + Fragments(Tlv(tag, value), maxCmdLen, true)
    ensures r.Stored? <==> file.refusals == old(file.refusals) &&
                           (value == [] || |Tlv(tag, value)| <= maxCmdLen || file.interimSw == SW_OK)
  {
    var ok := file.Select();
    if !ok { return SetFailed; }
    if value == [] {
      ghost var sw;
      ok, sw := SetDataChecked(file, Fragment(true, [tag]), CHECKED);
      return if ok then Stored else SetFailed;
    }
    TlvIsSelfDelimiting(tag, value);
    TlvHolds(tag, value);
    r := SendObject(file, Tlv(tag, value), maxCmdLen, CHECKED);
  }

  /** The loop of `set_data`.  It stores the object whatever its length if the check lets the card's interim
      answers pass. */
  method SendObject(file: TlvFile, tlv: seq<byte>, maxCmdLen: nat, accepted: set<StatusWord>) returns (r: SetResult)
    requires 2 <= maxCmdLen && SelfDelimiting(tlv) && Accepting(accepted)
    modifies file`objects, file`pending, file`received, file`refusals
    ensures file.refusals >= old(file.refusals)
    ensures r.SetFailed? ==> file.objects == old(file.objects)
    ensures r.Stored? ==> file.objects == old(file.objects)[tlv[0] := tlv] &&
                          file.received == old(file.received) + Fragments(tlv, maxCmdLen, true)
    ensures r.Stored? <==> file.refusals == old(file.refusals) && (|tlv| <= maxCmdLen || file.interimSw in accepted)
  {
    var first := true;
    var remaining := tlv;
    ghost var k: nat := 0;
    ghost var all := Fragments(tlv, maxCmdLen, true);
    ghost var sent, todo := [], all;
    while |remaining| > 0
      invariant k <= |tlv| && remaining == tlv[k..] && first == (k == 0)
      invariant file.refusals == old(file.refusals)
      invariant 0 < k < |tlv| ==> file.pending == tlv[..k]
      invariant 0 < k ==> |tlv| <= maxCmdLen || file.interimSw in accepted
      invariant file.objects == if k < |tlv| then old(file.objects) else old(file.objects)[tlv[0] := tlv]
      invariant sent + todo == all && todo == Fragments(remaining, maxCmdLen, first)
      invariant file.received == old(file.received) + sent
    {
      ghost var n := FragmentStep(tlv, maxCmdLen, k, first);
      assert todo == [todo[0]] + todo[1..];
      var fragment := Take(remaining, maxCmdLen);
      var ok := SendFragment(file, tlv, fragment, first, accepted, k, n);
      if !ok { return SetFailed; }
      sent, todo := sent + [todo[0]], todo[1..];
      first := false;
      remaining := Drop(remaining, maxCmdLen);
      k := n;
    }
    r := Stored;
  }

  /** One round of the loop moves from octet `k` to octet `n`. */
  lemma FragmentStep(tlv: seq<byte>, maxCmdLen: nat, k: nat, first: bool) returns (n: nat)
    requires 0 < maxCmdLen && k < |tlv|
    ensures k < n <= |tlv| && n == (if k + maxCmdLen <= |tlv| then k + maxCmdLen else |tlv|)
    ensures Take(tlv[k..], maxCmdLen) == tlv[k..n] && Drop(tlv[k..], maxCmdLen) == tlv[n..]
    ensures Fragments(tlv[k..], maxCmdLen, first) ==
            [Fragment(first, tlv[k..n])] + Fragments(tlv[n..], maxCmdLen, false)
  {
    n := if k + maxCmdLen <= |tlv| then k + maxCmdLen else |tlv|;
  }

  /** One fragment, the octets `k` to `n` of the object. */
  method SendFragment(file: TlvFile, ghost tlv: seq<byte>, data: seq<byte>, first: bool, accepted: set<StatusWord>,
                      ghost k: nat, ghost n: nat)
    returns (ok: bool)
    requires Accepting(accepted) && SelfDelimiting(tlv) && k < n <= |tlv| && 2 <= n && first == (k == 0)
    requires data == tlv[k..n] && (k > 0 ==> file.pending == tlv[..k])
    modifies file`objects, file`pending, file`received, file`refusals
    ensures file.refusals >= old(file.refusals)
    ensures file.refusals > old(file.refusals) ==> !ok && file.objects == old(file.objects)
    ensures file.refusals == old(file.refusals) ==> file.received == old(file.received) + [Fragment(first, data)]
    ensures file.refusals == old(file.refusals) ==>
              if n == |tlv| then ok && file.objects == old(file.objects)[tlv[0] := tlv]
              else (ok <==> file.interimSw in accepted) && file.objects == old(file.objects) && file.pending == tlv[..n]
  {
    ghost var sw;
    ok, sw := SetDataChecked(file, Fragment(first, data), accepted);
    assert (if first then [] else tlv[..k]) + data == tlv[..n];
    assert tlv[..|tlv|] == tlv;
    assert CompleteAt(tlv, n) <==> n == |tlv|;
  }

  /** `retrieve_data`.  The status word that announces another block is rejected by the check before the
      loop sees it, so an object comes back exactly if the card serves it in one block. */
  method RetrieveData(file: TlvFile, tag: byte) returns (r: GetResult)
    modifies file`left, file`refusals
    ensures file.refusals >= old(file.refusals)
    ensures r.Object?
            <==> file.refusals == old(file.refusals) && tag in file.objects && |file.objects[tag]| <= file.blockSize
    ensures r.Object? ==> r.value == file.objects[tag]
  {
    var ok := file.Select();
    if !ok { return GetFailed; }
    r := CollectBlocks(file, tag, CHECKED);
  }

  /** The loop of `retrieve_data`.  If the check let 62F1 pass, it would return every object whole, whatever
      the block size. */
  method CollectBlocks(file: TlvFile, tag: byte, accepted: set<StatusWord>) returns (r: GetResult)
    requires Accepting(accepted)
    modifies file`left, file`refusals
    ensures file.refusals >= old(file.refusals)
    ensures r.Object? ==> tag in file.objects && r.value == file.objects[tag] && file.refusals == old(file.refusals)
    ensures tag in file.objects && |file.objects[tag]| <= file.blockSize && file.refusals == old(file.refusals)
            ==> r.Object?
    ensures SW_MORE_DATA in accepted && tag in file.objects && file.refusals == old(file.refusals) ==> r.Object?
    ensures SW_MORE_DATA !in accepted && r.Object? ==> |file.objects[tag]| <= file.blockSize
  {
    var data, sw := file.RetrieveData(true, tag);
    if sw !in accepted { return GetFailed; }
    BlockTaken([], file.objects[tag], file.blockSize);
    var totalData := data;
    while sw == SW_MORE_DATA || sw == SW_MORE_DATA_PROACTIVE
      invariant tag in file.objects && file.refusals == old(file.refusals)
      invariant totalData + file.left == file.objects[tag] && sw in accepted
      invariant sw == if file.left == [] then SW_OK else SW_MORE_DATA
      invariant SW_MORE_DATA !in accepted ==> |file.objects[tag]| <= file.blockSize
      decreases |file.left|
    {
      BlockTaken(totalData, file.left, file.blockSize);
      data, sw := file.RetrieveData(false, tag);
      if sw !in accepted { return GetFailed; }
      totalData := totalData + data;
    }
    assert totalData + [] == totalData;
    r := Object(totalData);
  }

  /** What the two loops come to: an object of any length, sent and collected in blocks of any size, comes back the
      same, exactly if nothing is refused and the check lets pass the interim answers that are needed. */
  method SendAndCollect(file: TlvFile, tag: byte, value: seq<byte>, maxCmdLen: nat, accepted: set<StatusWord>)
    returns (s: SetResult, g: GetResult)
    requires 2 <= maxCmdLen && |value| < Pow256(4) && Accepting(accepted)
    modifies file`objects, file`pending, file`received, file`left, file`refusals
    ensures g.Object? ==> s.Stored? && g.value == Tlv(tag, value) && Holds(g.value, tag, value)
    ensures var n := |Tlv(tag, value)|;
            g.Object? <==> file.refusals == old(file.refusals) && (n <= maxCmdLen || file.interimSw in accepted) &&
                           (n <= file.blockSize || SW_MORE_DATA in accepted)
  {
    TlvIsSelfDelimiting(tag, value);
    TlvHolds(tag, value);
    g := GetFailed;
    s := SendObject(file, Tlv(tag, value), maxCmdLen, accepted);
    if s.Stored? { g := CollectBlocks(file, tag, accepted); }
  }

  /** `retrieve_data` after `set_data`, with the check as it is. */
  method SetAndRetrieve(file: TlvFile, tag: byte, value: seq<byte>, maxCmdLen: nat)
    returns (s: SetResult, g: GetResult)
    requires 2 <= maxCmdLen && |value| < Pow256(4) && value != []
    modifies file`objects, file`pending, file`received, file`left, file`refusals
    ensures g.Object? ==> s.Stored? && g.value == Tlv(tag, value) && Holds(g.value, tag, value)
    ensures var n := |Tlv(tag, value)|;
            g.Object? <==> file.refusals == old(file.refusals) && (n <= maxCmdLen || file.interimSw == SW_OK) &&
                           n <= file.blockSize
  {
    g := GetFailed;
    s := SetData(file, tag, value, maxCmdLen);
    if s.Stored? { g := RetrieveData(file, tag); }
  }

  /** The next block goes behind those collected. */
  lemma BlockTaken(collected: seq<byte>, s: seq<byte>, n: nat)
    ensures (collected + Take(s, n)) + Drop(s, n) == collected + s
    ensures [] + Take(s, n) == Take(s, n) && [] + s == s
    ensures Drop(s, n) == [] <==> |s| <= n
    ensures n > 0 && s != [] ==> |Drop(s, n)| < |s|
  {
    TakeAndDrop(s, n);
    Regroup(collected, Take(s, n), Drop(s, n));
  }
}
