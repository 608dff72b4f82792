/** The SMS T-PDU codecs of pySim/sms.py. */
module Sms {
  import opened Wrappers
  import opened Bytes

  // ---------- user data header ----------

  /** An information element; its length octet is the length of `value`. */
  datatype Ie = Ie(iei: byte, value: seq<byte>)

  function IeBytes(ies: seq<Ie>): seq<byte> {
    if ies == [] then [] else OneIe(ies[0]) + IeBytes(ies[1..])
  }

  function OneIe(ie: Ie): seq<byte> {
    if |ie.value| > 255 then [] else [ie.iei, |ie.value|] + ie.value
  }

  /** `UserDataHeader.to_bytes`; None where a length does not fit its octet. */
  function BuildUdh(ies: seq<Ie>): Option<seq<byte>> {
    if (forall ie <- ies :: |ie.value| <= 255) && |IeBytes(ies)| <= 255 then Some([|IeBytes(ies)|] + IeBytes(ies))
    else None
  }

  /** The octets of the element at the head of `s`, as its length octet has it. */
  function IeLength(s: seq<byte>): nat
    requires |s| >= 2
  {
    var length: int := s[1];
    length + 2
  }

  /** As many complete elements as there are; what remains is dropped, as `GreedyRange` does. */
  function ParseIes(s: seq<byte>): seq<Ie> {
    if |s| < 2 || |s| < IeLength(s) then []
    else [Ie(s[0], s[2..IeLength(s)])] + ParseIes(s[IeLength(s)..])
  }

  /** `UserDataHeader.from_bytes`: the elements and the data after the header. */
  function ParseUdh(s: seq<byte>): Option<(seq<Ie>, seq<byte>)> {
    if s == [] then None
    else
      var udhl: int := s[0];
      if |s| < udhl + 1 then None else Some((ParseIes(s[1..udhl + 1]), s[udhl + 1..]))
  }

  lemma ParseOneIe(ie: Ie, tail: seq<byte>)
    requires |ie.value| <= 255
    ensures ParseIes(OneIe(ie) + tail) == [ie] + ParseIes(tail)
  {
    var s := OneIe(ie) + tail;
    assert IeLength(s) == 2 + |ie.value|;
    assert s[2..IeLength(s)] == ie.value && s[IeLength(s)..] == tail;
  }

  lemma {:induction false} IesRoundTrip(ies: seq<Ie>)
    requires forall ie <- ies :: |ie.value| <= 255
    ensures ParseIes(IeBytes(ies)) == ies
  {
    if ies != [] {
      IesRoundTrip(ies[1..]);
      ParseOneIe(ies[0], IeBytes(ies[1..]));
    }
  }

  /** A freshly built header, followed by anything, parses back to its elements and exactly what follows. */
  lemma UdhRoundTrip(ies: seq<Ie>, rest: seq<byte>)
    requires BuildUdh(ies).Some?
    ensures ParseUdh(BuildUdh(ies).value + rest) == Some((ies, rest))
  {
    var s := BuildUdh(ies).value + rest;
    var n := |IeBytes(ies)|;
    assert s[1..n + 1] == IeBytes(ies) && s[n + 1..] == rest;
    IesRoundTrip(ies);
  }

  function Octets(ies: seq<Ie>): nat {
    if ies == [] then 0 else 2 + |ies[0].value| + Octets(ies[1..])
  }

  /** A header is built exactly if its lengths fit their octets; it counts what follows its first octet. */
  lemma UdhIsBuilt(ies: seq<Ie>)
    ensures BuildUdh(ies).Some? <==> (forall ie <- ies :: |ie.value| <= 255) && Octets(ies) <= 255
    ensures BuildUdh(ies).Some? ==> |BuildUdh(ies).value| == 1 + Octets(ies) && BuildUdh(ies).value[0] == Octets(ies)
  {
    if forall ie <- ies :: |ie.value| <= 255 { IeOctets(ies); }
  }

  lemma {:induction false} IeOctets(ies: seq<Ie>)
    requires forall ie <- ies :: |ie.value| <= 255
    ensures |IeBytes(ies)| == Octets(ies)
  {
    if ies != [] { IeOctets(ies[1..]); }
  }

  /** Of any header, the elements are its octets in their order, up to what is no whole element. */
  lemma {:induction false} ParsedIes(s: seq<byte>)
    ensures var ies := ParseIes(s);
            && (forall ie <- ies :: |ie.value| <= 255) && |IeBytes(ies)| <= |s| && IeBytes(ies) == s[..|IeBytes(ies)|]
            && var rest := s[|IeBytes(ies)|..]; |rest| < 2 || |rest| < IeLength(rest)
    decreases |s|
  {
    if |s| >= 2 && |s| >= IeLength(s) {
      var n := IeLength(s);
      var first, rest := Ie(s[0], s[2..n]), s[n..];
      ParsedIes(rest);
      OneMoreIe(first, ParseIes(rest));
      assert OneIe(first) == s[..n];
      JoinSlices(s, n, |IeBytes(ParseIes(rest))|);
    } else {
      assert s[..0] == [] && s[0..] == s;
    }
  }

  lemma OneMoreIe(first: Ie, ies: seq<Ie>)
    ensures IeBytes([first] + ies) == OneIe(first) + IeBytes(ies)
  {
    assert ([first] + ies)[1..] == ies;
  }

  /** A header is read if it is all there, and what follows is left. */
  lemma ParsedUdh(s: seq<byte>)
    ensures ParseUdh(s).Some? <==> s != [] && |s| > s[0]
    ensures ParseUdh(s).Some? ==> var n: int := s[0]; ParseUdh(s).value == (ParseIes(s[1..n + 1]), s[n + 1..])
  {
  }

  lemma JoinSlices(s: seq<byte>, n: nat, m: nat)
    requires n + m <= |s|
    ensures s[..n] + s[n..][..m] == s[..n + m] && s[n..][m..] == s[n + m..]
  {
  }

  // ---------- addresses ----------

  /** A BCD digit; 15 is the filler. */
  type Digit = x: int | 0 <= x < 16
  const FILLER: Digit := 15

  /** Digits two to an octet, the first in the low nibble. */
  function PackDigits(digits: seq<Digit>): (r: seq<byte>)
    requires |digits| % 2 == 0
    ensures |r| == |digits| / 2
  {
    if digits == [] then []
    else
      var low: int, high: int := digits[0], digits[1];
      [16 * high + low] + PackDigits(digits[2..])
  }

  function UnpackDigits(s: seq<byte>): (r: seq<Digit>)
    ensures |r| == 2 * |s|
  {
    if s == [] then [] else [s[0] % 16, s[0] / 16] + UnpackDigits(s[1..])
  }

  lemma {:induction false} PackRoundTrip(digits: seq<Digit>)
    requires |digits| % 2 == 0
    ensures UnpackDigits(PackDigits(digits)) == digits
  {
    if digits != [] {
      PackRoundTrip(digits[2..]);
      assert digits == [digits[0], digits[1]] + digits[2..];
    }
  }

  /** Digit `i` of packed digits: the even ones in the low halves of the octets. */
  function DigitAt(s: seq<byte>, i: nat): int
    requires i < 2 * |s|
  {
    if i % 2 == 0 then s[i / 2] % 16 else s[i / 2] / 16
  }

  lemma {:induction false} PackedDigit(digits: seq<Digit>, i: nat)
    requires |digits| % 2 == 0 && i < |digits|
    ensures DigitAt(PackDigits(digits), i) == digits[i]
  {
    if i >= 2 {
      PackedDigit(digits[2..], i - 2);
      assert PackDigits(digits)[i / 2] == PackDigits(digits[2..])[i / 2 - 1];
    }
  }

  lemma {:induction false} UnpackedDigit(s: seq<byte>, i: nat)
    requires i < 2 * |s|
    ensures UnpackDigits(s)[i] == DigitAt(s, i)
  {
    if i >= 2 { UnpackedDigit(s[1..], i - 2); }
  }

  type Ton = x: int | 0 <= x < 8
  type Npi = x: int | 0 <= x < 16

  datatype Address = Address(digits: seq<Digit>, ton: Ton, npi: Npi)

  function Filled(digits: seq<Digit>): (r: seq<Digit>)
    ensures |r| % 2 == 0 && digits <= r
  {
    if |digits| % 2 == 1 then digits + [FILLER] else digits
  }

  function AddressBytes(a: Address): Option<seq<byte>> {
    if |a.digits| > 255 then None
    else Some([|a.digits|, 128 + 16 * a.ton + a.npi] + PackDigits(Filled(a.digits)))
  }

  /** `AddressField.from_bytes`: the address and the bytes after it. */
  function ParseAddress(s: seq<byte>): Option<(Address, seq<byte>)> {
    if |s| < 2 then None
    else
      var n := s[0] / 2 + s[0] % 2;
      if |s| < 2 + n then None
      else Some((Address(UnpackDigits(s[2..2 + n])[..s[0]], s[1] / 16 % 8, s[1] % 16), s[2 + n..]))
  }

  /** Any address of up to 255 digits can be built: the number of its digits, its type with the top bit set, and its
      digits, a last octet half filled with 15 if they are odd in number. */
  lemma AddressLayout(a: Address)
    ensures AddressBytes(a).Some? <==> |a.digits| <= 255
    ensures AddressBytes(a).Some? ==>
              var s, n := AddressBytes(a).value, |a.digits|;
              && |s| == 2 + (n + 1) / 2 && s[0] == n
              && s[1] / 128 == 1 && s[1] / 16 % 8 == a.ton && s[1] % 16 == a.npi
              && (forall i | 0 <= i < n :: DigitAt(s[2..], i) == a.digits[i])
              && (n % 2 == 1 ==> DigitAt(s[2..], n) == 15)
  {
    if |a.digits| <= 255 {
      var packed := PackDigits(Filled(a.digits));
      TypeOfAddress(a.ton, a.npi);
      assert AddressBytes(a).value[2..] == packed;
      forall i | 0 <= i < |Filled(a.digits)| ensures DigitAt(packed, i) == Filled(a.digits)[i] {
        PackedDigit(Filled(a.digits), i);
      }
    }
  }

  /** Whatever octets hold the digits that the first of them counts are read as an address, and what follows is
      left. */
  lemma ParsedAddress(s: seq<byte>)
    ensures ParseAddress(s).Some? <==> |s| >= 2 && |s| >= 2 + (s[0] as int + 1) / 2
    ensures ParseAddress(s).Some? ==>
              var (a, rest) := ParseAddress(s).value;
              && |a.digits| == s[0] && a.ton == s[1] / 16 % 8 && a.npi == s[1] % 16
              && rest == s[2 + (s[0] as int + 1) / 2..]
              && forall i | 0 <= i < |a.digits| :: a.digits[i] == DigitAt(s[2..], i)
  {
    if ParseAddress(s).Some? {
      var n: int := (s[0] as int + 1) / 2;
      forall i | 0 <= i < s[0] ensures UnpackDigits(s[2..2 + n])[i] == DigitAt(s[2..], i) {
        UnpackedDigit(s[2..2 + n], i);
        assert s[2..2 + n][i / 2] == s[2..][i / 2];
      }
    }
  }

  lemma TypeOfAddress(ton: Ton, npi: Npi)
    ensures (128 + 16 * ton + npi) / 16 % 8 == ton && (128 + 16 * ton + npi) % 16 == npi
    ensures (128 + 16 * ton + npi) / 128 == 1
  {
  }

  /** A freshly built address of any digits, odd or even in number, parses back with exactly what follows. */
  lemma AddressRoundTrip(a: Address, rest: seq<byte>)
    requires AddressBytes(a).Some?
    ensures ParseAddress(AddressBytes(a).value + rest) == Some((a, rest))
  {
    var packed := PackDigits(Filled(a.digits));
    var s := AddressBytes(a).value + rest;
    TypeOfAddress(a.ton, a.npi);
    assert s[0] == |a.digits| && s[1] == 128 + 16 * a.ton + a.npi;
    assert s[2..2 + |packed|] == packed && s[2 + |packed|..] == rest;
    PackRoundTrip(Filled(a.digits));
    assert Filled(a.digits)[..|a.digits|] == a.digits;
  }

  class AddressField {
    var digits: seq<Digit>
    const ton: Ton
    const npi: Npi

    constructor (a: Address)
      ensures Value() == a
    {
      digits, ton, npi := a.digits, a.ton, a.npi;
    }

    function Value(): Address
      reads this
    {
      Address(digits, ton, npi)
    }

    /** `to_bytes`, which leaves the filler digit behind in the object. */
    method ToBytes() returns (r: Option<seq<byte>>)
      modifies this
      ensures r == AddressBytes(old(Value()))
      ensures digits == Filled(old(digits)) == old(digits) + if |old(digits)| % 2 == 1 then [15] else []
    {
      var numDigits := |digits|;
      if numDigits % 2 == 1 { digits := digits + [FILLER]; }
      if numDigits > 255 { return None; }
      r := Some([numDigits, 128 + 16 * ton + npi] + PackDigits(digits));
    }
  }

  // ---------- SMS-SUBMIT ----------

  datatype Vpf = NoVp | Enhanced | Relative | Absolute {
    function Code(): int {
      match this
      case NoVp => 0
      case Enhanced => 1
      case Relative => 2
      case Absolute => 3
    }

    function Length(): nat {
      match this
      case NoVp => 0
      case Relative => 1
      case Enhanced => 7
      case Absolute => 7
    }
  }

  function VpfOf(code: int): Vpf {
    if code == 0 then NoVp else if code == 1 then Enhanced else if code == 2 then Relative else Absolute
  }

  function Bit(b: bool): int { if b then 1 else 0 }

  /** Bit `i` of an octet, 1 standing for bit 0, 2 for bit 1, 4 for bit 2 and so on. */
  predicate HasBit(b: byte, weight: int)
    requires weight > 0
  {
    b / weight % 2 == 1
  }

  datatype Submit = Submit(rd: bool, vpf: Vpf, srr: bool, rp: bool, udhi: bool, mr: byte, da: Address,
                           pid: byte, dcs: byte, vp: seq<byte>, udl: byte, ud: seq<byte>)

  function SubmitFlags(m: Submit): byte {
    128 * Bit(m.srr) + 64 * Bit(m.udhi) + 32 * Bit(m.rp) + 8 * m.vpf.Code() + 4 * Bit(m.rd) + 1
  }

  function SubmitBody(m: Submit): seq<byte> {
    [m.pid, m.dcs] + (if m.vpf.NoVp? then [] else m.vp) + [m.udl] + m.ud
  }

  function SubmitBytes(m: Submit): Option<seq<byte>> {
    match AddressBytes(m.da)
    case None => None
    case Some(da) => Some([SubmitFlags(m), m.mr] + da + SubmitBody(m))
  }

  /** `SMS_SUBMIT.from_bytes`; None where the source raises. */
  function ParseSubmit(s: seq<byte>): Option<Submit> {
    if |s| < 2 then None
    else
      match ParseAddress(s[2..])
      case None => None
      case Some((da, rest)) =>
        ParseSubmitBody(s[0], s[1], da, rest)
  }

  /** The part of `SMS_SUBMIT.from_bytes` after the address. */
  function ParseSubmitBody(flags: byte, mr: byte, da: Address, rest: seq<byte>): Option<Submit> {
    var vpf := VpfOf(flags / 8 % 4);
    var n := 2 + vpf.Length();
    if |rest| <= n then None
    else Some(Submit(HasBit(flags, 4), vpf, HasBit(flags, 128), HasBit(flags, 32), HasBit(flags, 64), mr, da,
                     rest[0], rest[1], rest[2..n], rest[n], rest[n + 1..]))
  }

  /** `SMS_SUBMIT.from_bytes`, advancing an offset field by field. */
  method SubmitFromBytes(inb: seq<byte>) returns (r: Option<Submit>)
    ensures r == ParseSubmit(inb)
  {
    if |inb| < 2 { return None; }
    var flags, mr := inb[0], inb[1];
    var address := ParseAddress(inb[2..]);
    if address.None? { return None; }
    var (da, remainder) := address.value;
    if |remainder| < 2 { return None; }
    var offset := 0;
    var pid := remainder[offset];
    offset := offset + 1;
    var dcs := remainder[offset];
    offset := offset + 1;
    var vpf := VpfOf(flags / 8 % 4);
    var vp;
    vp, offset := ValidityPeriod(vpf, remainder, offset);
    if |remainder| <= offset { return None; }
    var udl := remainder[offset];
    offset := offset + 1;
    r := Some(Submit(HasBit(flags, 4), vpf, HasBit(flags, 128), HasBit(flags, 32), HasBit(flags, 64), mr, da,
                     pid, dcs, vp, udl, remainder[offset..]));
  }

  /** The branches of `from_bytes` over the validity period format. */
  method ValidityPeriod(vpf: Vpf, remainder: seq<byte>, from: nat) returns (vp: seq<byte>, offset: nat)
    requires from <= |remainder|
    ensures offset == from + vpf.Length()
    ensures offset <= |remainder| ==> vp == remainder[from..offset]
  {
    vp, offset := [], from;
    match vpf {
      case NoVp =>
      case Relative =>
        vp := Take(remainder[offset..], 1);
        offset := offset + 1;
      case Enhanced =>
        vp := Take(remainder[offset..], 7);
        offset := offset + 7;
      case Absolute =>
        vp := Take(remainder[offset..], 7);
        offset := offset + 7;
    }
  }

  lemma SubmitFlagsRoundTrip(m: Submit)
    ensures var f := SubmitFlags(m);
            && VpfOf(f / 8 % 4) == m.vpf && HasBit(f, 4) == m.rd && HasBit(f, 128) == m.srr
            && HasBit(f, 32) == m.rp && HasBit(f, 64) == m.udhi
  {
    HighFlags(m.srr, m.udhi, m.rp, 8 * m.vpf.Code() + 4 * Bit(m.rd) + 1);
    var f: int := SubmitFlags(m);
    assert f / 8 == 16 * Bit(m.srr) + 8 * Bit(m.udhi) + 4 * Bit(m.rp) + m.vpf.Code();
  }

  lemma HighFlags(bit7: bool, bit6: bool, bit5: bool, low: int)
    requires 0 <= low < 32
    ensures var f := 128 * Bit(bit7) + 64 * Bit(bit6) + 32 * Bit(bit5) + low;
            HasBit(f, 128) == bit7 && HasBit(f, 64) == bit6 && HasBit(f, 32) == bit5
  {
  }

  /** Bit by bit, the type 01 in the lowest two, and in the next but one the format of the validity period. */
  lemma SubmitFlagBits(m: Submit)
    ensures var f := SubmitFlags(m);
            && f % 4 == 1 && f / 4 % 2 == (if m.rd then 1 else 0)
            && f / 8 % 4 == (if m.vpf.NoVp? then 0 else if m.vpf.Enhanced? then 1 else if m.vpf.Relative? then 2 else 3)
            && f / 32 % 2 == (if m.rp then 1 else 0) && f / 64 % 2 == (if m.udhi then 1 else 0)
            && f / 128 == (if m.srr then 1 else 0)
  {
    SubmitFlagsRoundTrip(m);
    var f: int := SubmitFlags(m);
    assert f / 4 == 32 * Bit(m.srr) + 16 * Bit(m.udhi) + 8 * Bit(m.rp) + 2 * m.vpf.Code() + Bit(m.rd);
  }

  lemma SubmitIsBuilt(m: Submit)
    ensures SubmitBytes(m).Some? <==> |m.da.digits| <= 255
  {
    AddressLayout(m.da);
  }

  /** An SMS-SUBMIT whose validity period has the length of its format survives building and parsing. */
  lemma SubmitRoundTrip(m: Submit)
    requires SubmitBytes(m).Some? && |m.vp| == m.vpf.Length()
    ensures ParseSubmit(SubmitBytes(m).value) == Some(m)
  {
    var rest := SubmitBody(m);
    AddressRoundTrip(m.da, rest);
    SubmitBodyRoundTrip(m);
    assert SubmitBytes(m).value[2..] == AddressBytes(m.da).value + rest;
  }

  lemma SubmitBodyRoundTrip(m: Submit)
    requires |m.vp| == m.vpf.Length()
    ensures ParseSubmitBody(SubmitFlags(m), m.mr, m.da, SubmitBody(m)) == Some(m)
  {
    SubmitFlagsRoundTrip(m);
    BodyFields(m.pid, m.dcs, m.vp, m.udl, m.ud);
    assert m.vpf.NoVp? ==> m.vp == [];
  }

  lemma BodyFields(pid: byte, dcs: byte, vp: seq<byte>, udl: byte, ud: seq<byte>)
    ensures var s, n := [pid, dcs] + vp + [udl] + ud, 2 + |vp|;
            s[..2] == [pid, dcs] && s[2..n] == vp && s[n] == udl && s[n + 1..] == ud
  {
  }

  /** `SMS_SUBMIT.to_bytes`, extending the output field by field. */
  method SubmitToBytes(m: Submit, da: AddressField) returns (r: Option<seq<byte>>)
    requires da.Value() == m.da
    modifies da
    ensures r == SubmitBytes(m)
  {
    var outb: seq<byte> := [SubmitFlags(m)];
    outb := outb + [m.mr];
    var addr := da.ToBytes();
    if addr.None? { return None; }
    outb := outb + addr.value;
    outb := outb + [m.pid];
    outb := outb + [m.dcs];
    if !m.vpf.NoVp? { outb := outb + m.vp; }
    outb := outb + [m.udl];
    outb := outb + m.ud;
    assert outb == SubmitBytes(m).value;
    r := Some(outb);
  }

  // ---------- SMS-DELIVER ----------

  datatype Deliver = Deliver(lp: bool, mms: bool, sri: bool, rp: bool, udhi: bool, oa: Address,
                             pid: byte, dcs: byte, scts: seq<byte>, udl: byte, ud: seq<byte>)

  /** The source names two of the flag bits `tp_rp` and none `tp_lp`. */
  function DeliverFlags(m: Deliver): byte {
    128 * Bit(m.rp) + 64 * Bit(m.udhi) + 32 * Bit(m.rp) + 16 * Bit(m.sri) + 4 * Bit(m.mms)
  }

  function DeliverBytes(m: Deliver): Option<seq<byte>> {
    match AddressBytes(m.oa)
    case None => None
    case Some(oa) => Some([DeliverFlags(m)] + oa + [m.pid, m.dcs] + m.scts + [m.udl] + m.ud)
  }

  function ParseDeliver(s: seq<byte>): Option<Deliver> {
    if s == [] then None
    else
      match ParseAddress(s[1..])
      case None => None
      case Some((oa, rest)) =>
        var f := s[0];
        if |rest| < 10 then None
        else Some(Deliver(false, HasBit(f, 4), HasBit(f, 16), HasBit(f, 32), HasBit(f, 64), oa,
                          rest[0], rest[1], rest[2..9], rest[9], rest[10..]))
  }

  /** `SMS_DELIVER.from_bytes` */
  method DeliverFromBytes(inb: seq<byte>) returns (r: Option<Deliver>)
    ensures r == ParseDeliver(inb)
  {
    if inb == [] { return None; }
    var f := inb[0];
    var address := ParseAddress(inb[1..]);
    if address.None? { return None; }
    var (oa, remainder) := address.value;
    var offset := 0;
    if |remainder| < 2 { return None; }
    var pid := remainder[offset];
    offset := offset + 1;
    var dcs := remainder[offset];
    offset := offset + 1;
    var scts := Take(remainder[offset..], 7);
    offset := offset + 7;
    if |remainder| <= offset { return None; }
    assert scts == remainder[2..offset];
    var udl := remainder[offset];
    offset := offset + 1;
    r := Some(Deliver(false, HasBit(f, 4), HasBit(f, 16), HasBit(f, 32), HasBit(f, 64), oa,
                      pid, dcs, scts, udl, remainder[offset..]));
  }

  /** `SMS_DELIVER.to_bytes` */
  method DeliverToBytes(m: Deliver, oa: AddressField) returns (r: Option<seq<byte>>)
    requires oa.Value() == m.oa
    modifies oa
    ensures r == DeliverBytes(m)
  {
    var outb: seq<byte> := [DeliverFlags(m)];
    var addr := oa.ToBytes();
    if addr.None? { return None; }
    outb := outb + addr.value;
    outb := outb + [m.pid];
    outb := outb + [m.dcs];
    outb := outb + m.scts;
    outb := outb + [m.udl];
    outb := outb + m.ud;
    assert outb == DeliverBytes(m).value;
    r := Some(outb);
  }

  lemma DeliverFlagsRoundTrip(m: Deliver)
    ensures var f := DeliverFlags(m);
            HasBit(f, 4) == m.mms && HasBit(f, 16) == m.sri && HasBit(f, 32) == m.rp && HasBit(f, 64) == m.udhi
  {
    HighFlags(m.rp, m.udhi, m.rp, 16 * Bit(m.sri) + 4 * Bit(m.mms));
  }

  /** Bit by bit, the type 00 in the lowest two; bit 3 stays clear, and bits 5 and 7 are the same. */
  lemma DeliverFlagBits(m: Deliver)
    ensures var f := DeliverFlags(m);
            && f % 4 == 0 && f / 4 % 2 == (if m.mms then 1 else 0) && f / 8 % 2 == 0
            && f / 16 % 2 == (if m.sri then 1 else 0) && f / 32 % 2 == (if m.rp then 1 else 0)
            && f / 64 % 2 == (if m.udhi then 1 else 0) && f / 128 == (if m.rp then 1 else 0)
    ensures DeliverBytes(m).Some? <==> |m.oa.digits| <= 255
  {
    DeliverFlagsRoundTrip(m);
    AddressLayout(m.oa);
    var f: int := DeliverFlags(m);
    assert f / 8 == 16 * Bit(m.rp) + 8 * Bit(m.udhi) + 4 * Bit(m.rp) + 2 * Bit(m.sri);
  }

  /** The loop prevention flag is the one field of an SMS-DELIVER that does not survive. */
  lemma DeliverRoundTrip(m: Deliver)
    requires DeliverBytes(m).Some? && |m.scts| == 7
    ensures ParseDeliver(DeliverBytes(m).value) == Some(m.(lp := false))
    ensures ParseDeliver(DeliverBytes(m).value) == Some(m) <==> !m.lp
  {
    DeliverFlagsRoundTrip(m);
    var rest := [m.pid, m.dcs] + m.scts + [m.udl] + m.ud;
    AddressRoundTrip(m.oa, rest);
    AfterFlags(DeliverFlags(m), AddressBytes(m.oa).value, [m.pid, m.dcs], m.scts, [m.udl], m.ud);
    assert rest[2..9] == m.scts && rest[10..] == m.ud;
  }

  lemma AfterFlags(flags: byte, oa: seq<byte>, a: seq<byte>, b: seq<byte>, c: seq<byte>, d: seq<byte>)
    ensures var s := [flags] + oa + a + b + c + d; s[0] == flags && s[1..] == oa + (a + b + c + d)
  {
  }
}
