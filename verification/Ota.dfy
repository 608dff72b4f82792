/** OTA secured packets over SMS, pySim/ota.py (ETSI TS 102 225, 3GPP TS 31.115).

    Ciphers and checksums are any functions with the laws that `Lawful` states. */
module Ota {
  import opened Bytes
  import opened Sms

  type Bits2 = x: int | 0 <= x < 4
  type Bits4 = x: int | 0 <= x < 16

  /** The block sizes of the algorithms: AES-CMAC, DES and triple DES, AES. */
  type BlockSize = n: nat | n == 1 || n == 8 || n == 16 witness 1

  /** The two-bit field `rc_cc_ds`. */
  const NO_RC_CC_DS: Bits2 := 0
  const RC: Bits2 := 1
  const CC: Bits2 := 2

  datatype Spi = Spi(counter: Bits2, ciphering: bool, rcCcDs: Bits2,
                     porInSubmit: bool, porCiphered: bool, porRcCcDs: Bits2, por: Bits2)

  datatype Crypt = Crypt(algo: Bits4, blockSize: BlockSize,
                         encrypt: seq<byte> -> seq<byte>, decrypt: seq<byte> -> seq<byte>) {
    /** CBC over whole blocks: decryption undoes encryption and lengths stay. */
    ghost predicate Lawful() {
      forall s {:trigger encrypt(s)} | Excess(|s|, blockSize) == 0 :: |encrypt(s)| == |s| && decrypt(encrypt(s)) == s
    }
  }

  const CC_LEN: nat := 8

  datatype Auth = Auth(algo: Bits4, blockSize: BlockSize, mac: seq<byte> -> seq<byte>) {
    ghost predicate Lawful() {
      forall s {:trigger mac(s)} :: |mac(s)| == CC_LEN
    }

    /** `OtaAlgoAuth.sign` */
    function Sign(data: seq<byte>): seq<byte> {
      mac(PadToBlock(data, blockSize))
    }
  }

  /** `crc32` is the four octets of zlib's checksum. */
  datatype Keyset = Keyset(crypt: Crypt, kicIdx: Bits4, auth: Auth, kidIdx: Bits4, cntr: nat,
                           crc32: seq<byte> -> seq<byte>) {
    ghost predicate Lawful() {
      crypt.Lawful() && auth.Lawful() && forall s {:trigger crc32(s)} :: |crc32(s)| == 4
    }
  }

  datatype Result<T> = Ok(value: T) | Err(error: Error)
  datatype Error = CounterTooLarge | InvalidRcCcDs | TooLong | Truncated | NotWholeBlocks | BadChecksum
                 | Unsupported | NoRpi | UnexpectedChecksum

  // ---------- padding ----------

  function Excess(len: nat, multiple: BlockSize): nat {
    if multiple == 1 then 0 else if multiple == 8 then len % 8 else len % 16
  }

  function Zeros(n: nat): (r: seq<byte>)
    ensures |r| == n && forall x <- r :: x == 0
  {
    seq(n, _ => 0)
  }

  /** `_get_padding`: zeros up to the next multiple. */
  function Padding(len: nat, multiple: BlockSize): (r: seq<byte>)
    ensures Excess(len + |r|, multiple) == 0 && |r| < multiple
  {
    if Excess(len, multiple) == 0 then [] else Zeros(multiple - Excess(len, multiple))
  }

  function PadToBlock(data: seq<byte>, multiple: BlockSize): (r: seq<byte>)
    ensures Excess(|r|, multiple) == 0 && data <= r
    ensures Excess(|data|, multiple) == 0 ==> r == data
  {
    data + Padding(|data|, multiple)
  }

  // ---------- command header ----------

  function SpiBytes(spi: Spi): (r: seq<byte>)
    ensures |r| == 2
  {
    [8 * spi.counter + 4 * Bit(spi.ciphering) + spi.rcCcDs,
     32 * Bit(spi.porInSubmit) + 16 * Bit(spi.porCiphered) + 4 * spi.porRcCcDs + spi.por]
  }

  function ParseSpi(a: byte, b: byte): Spi {
    Spi(a / 8 % 4, HasBit(a, 4), a % 4, HasBit(b, 32), HasBit(b, 16), b / 4 % 4, b % 4)
  }

  lemma FirstSpiOctet(counter: Bits2, ciphering: bool, rcCcDs: Bits2)
    ensures var a := 8 * counter + 4 * Bit(ciphering) + rcCcDs;
            a / 8 % 4 == counter && HasBit(a, 4) == ciphering && a % 4 == rcCcDs
  {
  }

  lemma SecondSpiOctet(inSubmit: bool, ciphered: bool, rcCcDs: Bits2, por: Bits2)
    ensures var b := 32 * Bit(inSubmit) + 16 * Bit(ciphered) + 4 * rcCcDs + por;
            HasBit(b, 32) == inSubmit && HasBit(b, 16) == ciphered && b / 4 % 4 == rcCcDs && b % 4 == por
  {
  }

  /** Bit by bit: counter, ciphering and checksum in the low five bits of the first octet; where and how the
      response is to be sent in the low six of the second. */
  lemma SpiLayout(spi: Spi)
    ensures var a, b := SpiBytes(spi)[0], SpiBytes(spi)[1];
            && a / 8 == spi.counter && a / 4 % 2 == (if spi.ciphering then 1 else 0) && a % 4 == spi.rcCcDs
            && b / 32 == (if spi.porInSubmit then 1 else 0) && b / 16 % 2 == (if spi.porCiphered then 1 else 0)
            && b / 4 % 4 == spi.porRcCcDs && b % 4 == spi.por
  {
    var a: int, b: int := SpiBytes(spi)[0], SpiBytes(spi)[1];
    assert a / 4 == 2 * spi.counter + Bit(spi.ciphering);
    assert b / 4 == 8 * Bit(spi.porInSubmit) + 4 * Bit(spi.porCiphered) + spi.porRcCcDs;
    assert b / 16 == 2 * Bit(spi.porInSubmit) + Bit(spi.porCiphered);
  }

  lemma SpiRoundTrip(spi: Spi)
    ensures ParseSpi(SpiBytes(spi)[0], SpiBytes(spi)[1]) == spi
  {
    FirstSpiOctet(spi.counter, spi.ciphering, spi.rcCcDs);
    SecondSpiOctet(spi.porInSubmit, spi.porCiphered, spi.porRcCcDs, spi.por);
  }

  function SigLen(rcCcDs: Bits2): nat {
    if rcCcDs == RC then 4 else if rcCcDs == CC then CC_LEN else 0
  }

  const HEAD_LEN: nat := 8
  const COUNTER_LEN: nat := 6

  /** CHL, SPI, KIc, KID and TAR. */
  function Head(keys: Keyset, tar: seq<byte>, spi: Spi): (r: seq<byte>)
    requires |tar| == 3
    ensures |r| == HEAD_LEN
  {
    [13 + SigLen(spi.rcCcDs)] + SpiBytes(spi) +
    [16 * keys.kicIdx + keys.crypt.algo, 16 * keys.kidIdx + keys.auth.algo] + tar
  }

  function ParseHead(head: seq<byte>): (seq<byte>, Spi)
    requires |head| == HEAD_LEN
  {
    (head[5..], ParseSpi(head[1], head[2]))
  }

  /** CNTR and PCNTR. */
  function CounterPart(cntr: nat, padCount: byte): (r: seq<byte>)
    requires cntr < Pow256(5)
    ensures |r| == COUNTER_LEN
  {
    BigEndian(cntr, 5) + [padCount]
  }

  // ---------- encode_cmd ----------

  /** What the checksum covers: CPL first, then everything but the checksum itself. */
  function Covered(head: seq<byte>, cnt: seq<byte>, apdu: seq<byte>, sigLen: nat): (r: seq<byte>)
    requires |head + cnt + apdu| + sigLen < Pow256(2)
    ensures |r| == 2 + |head| + |cnt| + |apdu|
  {
    BigEndian(|head + cnt + apdu| + sigLen, 2) + (head + cnt + apdu)
  }

  /** The padding that makes counter, checksum and APDU whole cipher blocks. */
  function CipherPadding(keys: Keyset, spi: Spi, apdu: seq<byte>): seq<byte> {
    if spi.ciphering then Padding(COUNTER_LEN + SigLen(spi.rcCcDs) + |apdu|, keys.crypt.blockSize) else []
  }

  /** A command packet as section 5.1 of ETSI TS 102 225 lays it out. */
  function CommandPacket(keys: Keyset, tar: seq<byte>, spi: Spi, apdu: seq<byte>): Result<seq<byte>>
    requires |tar| == 3
  {
    if spi.rcCcDs == 3 then Err(InvalidRcCcDs)
    else if keys.cntr >= Pow256(5) then Err(CounterTooLarge)
    else
      var pad := CipherPadding(keys, spi, apdu);
      var head := Head(keys, tar, spi);
      var cnt := CounterPart(keys.cntr, |pad|);
      if |head + cnt + (apdu + pad)| + SigLen(spi.rcCcDs) >= Pow256(2) then Err(TooLong)
      else
        var covered := Covered(head, cnt, apdu + pad, SigLen(spi.rcCcDs));
        Envelope(keys, spi, head, cnt + Check(keys, spi, covered) + (apdu + pad))
  }

  function Check(keys: Keyset, spi: Spi, covered: seq<byte>): seq<byte> {
    if spi.rcCcDs == CC then keys.auth.Sign(covered) else if spi.rcCcDs == RC then keys.crc32(covered) else []
  }

  /** Header and body, the latter enciphered if requested, limited to one short message. */
  function Envelope(keys: Keyset, spi: Spi, head: seq<byte>, body: seq<byte>): Result<seq<byte>> {
    var packet :=
      if spi.ciphering then WithLength(head + keys.crypt.encrypt(PadToBlock(body, keys.crypt.blockSize)))
      else head + body;
    if |packet| > 140 then Err(TooLong) else Ok(packet)
  }

  /** Prefixed with the two octets of its length.  The source raises where they do not suffice; that is
      beyond one short message anyway. */
  function WithLength(s: seq<byte>): seq<byte> {
    if |s| < Pow256(2) then BigEndian(|s|, 2) + s else [0] + s
  }

  method EncodeCmd(keys: Keyset, tar: seq<byte>, spi: Spi, apdu: seq<byte>) returns (r: Result<seq<byte>>)
    requires |tar| == 3 && keys.Lawful()
    ensures r == CommandPacket(keys, tar, spi, apdu)
    ensures r.Ok? <==> spi.rcCcDs != 3 && keys.cntr < 0x1_00_0000_0000 && PacketLen(keys, spi, apdu) <= 140
    ensures r.Ok? ==> |r.value| == PacketLen(keys, spi, apdu)
    ensures spi.rcCcDs == 3 ==> r == Err(InvalidRcCcDs)
    ensures spi.rcCcDs != 3 && keys.cntr >= 0x1_00_0000_0000 ==> r == Err(CounterTooLarge)
    ensures spi.rcCcDs != 3 && keys.cntr < 0x1_00_0000_0000 && PacketLen(keys, spi, apdu) > 140 ==> r == Err(TooLong)
  {
    CommandOutcome(keys, tar, spi, apdu);
    if spi.rcCcDs == 3 { return Err(InvalidRcCcDs); }
    var lenSig := SigLen(spi.rcCcDs);
    var padded, padCount := PadApdu(keys, spi, apdu, lenSig);
    if keys.cntr >= Pow256(5) { return Err(CounterTooLarge); }
    var partHead := Head(keys, tar, spi);
    var partCnt := CounterPart(keys.cntr, padCount);
    var envelope := partHead + partCnt + padded;
    var cpl := |envelope| + lenSig;
    if cpl >= Pow256(2) { return Err(TooLong); }
    envelope := BigEndian(cpl, 2) + envelope;
    envelope := Signed(keys, spi, partCnt, padded, envelope);
    r := Enveloped(keys, spi, partHead, envelope);
  }

  /** Rounded up to whole blocks. */
  function Blocks(len: nat, size: BlockSize): nat {
    if size == 8 then (len + 7) / 8 * 8 else if size == 16 then (len + 15) / 16 * 16 else len
  }

  /** How long a packet gets: header, counter part, checksum and APDU, and if ciphered whole blocks and a length in
      front. */
  function PacketLen(keys: Keyset, spi: Spi, apdu: seq<byte>): nat {
    var sig := if spi.rcCcDs == CC then 8 else if spi.rcCcDs == RC then 4 else 0;
    if spi.ciphering then 10 + Blocks(6 + sig + |apdu|, keys.crypt.blockSize) else 14 + sig + |apdu|
  }

  /** A packet is built exactly if the request makes sense, the counter fits its five octets and the packet one short
      message. */
  lemma CommandOutcome(keys: Keyset, tar: seq<byte>, spi: Spi, apdu: seq<byte>)
    requires |tar| == 3 && keys.Lawful()
    ensures var r := CommandPacket(keys, tar, spi, apdu);
            if spi.rcCcDs == 3 then r == Err(InvalidRcCcDs)
            else if keys.cntr >= 0x1_00_0000_0000 then r == Err(CounterTooLarge)
            else if PacketLen(keys, spi, apdu) > 140 then r == Err(TooLong)
            else r.Ok? && |r.value| == PacketLen(keys, spi, apdu)
  {
    assert Pow256(2) == 0x1_0000 && Pow256(3) == 0x100_0000 && Pow256(5) == 0x1_00_0000_0000;
    if spi.rcCcDs != 3 && keys.cntr < Pow256(5) {
      var pad := CipherPadding(keys, spi, apdu);
      var head, cnt := Head(keys, tar, spi), CounterPart(keys.cntr, |pad|);
      assert |head + cnt + (apdu + pad)| == 14 + |apdu| + |pad|;
      PaddedLen(6 + SigLen(spi.rcCcDs) + |apdu|, keys.crypt.blockSize);
      if 14 + |apdu| + |pad| + SigLen(spi.rcCcDs) < Pow256(2) {
        var check := Check(keys, spi, Covered(head, cnt, apdu + pad, SigLen(spi.rcCcDs)));
        EnvelopeLen(keys, spi, head, cnt + check + (apdu + pad));
      }
    }
  }

  lemma PaddedLen(len: nat, size: BlockSize)
    ensures len + |Padding(len, size)| == Blocks(len, size)
  {
    EightfoldUp(len);
    SixteenfoldUp(len);
  }

  lemma EightfoldUp(len: nat)
    ensures (len + 7) / 8 * 8 == if len % 8 == 0 then len else len + 8 - len % 8
  {
    var q, r := len / 8, len % 8;
    assert len + 7 == 8 * q + (r + 7);
    assert (len + 7) / 8 == if r == 0 then q else q + 1;
  }

  lemma SixteenfoldUp(len: nat)
    ensures (len + 15) / 16 * 16 == if len % 16 == 0 then len else len + 16 - len % 16
  {
    var q, r := len / 16, len % 16;
    assert len + 15 == 16 * q + (r + 15);
    assert (len + 15) / 16 == if r == 0 then q else q + 1;
  }

  lemma EnvelopeLen(keys: Keyset, spi: Spi, head: seq<byte>, body: seq<byte>)
    requires keys.Lawful() && (spi.ciphering ==> Excess(|body|, keys.crypt.blockSize) == 0)
    requires |head + body| < Pow256(2)
    ensures var n := |head| + |body| + if spi.ciphering then 2 else 0;
            var r := Envelope(keys, spi, head, body);
            if n > 140 then r == Err(TooLong) else r.Ok? && |r.value| == n
  {
    assert spi.ciphering ==> |head + keys.crypt.encrypt(body)| == |head| + |body|;
  }

  /** The start of `encode_cmd`: the APDU with its padding. */
  method PadApdu(keys: Keyset, spi: Spi, apdu: seq<byte>, lenSig: nat) returns (padded: seq<byte>, padCount: byte)
    requires lenSig == SigLen(spi.rcCcDs)
    ensures padded == apdu + CipherPadding(keys, spi, apdu) && padCount == |CipherPadding(keys, spi, apdu)|
  {
    padded, padCount := apdu, 0;
    if spi.ciphering {
      var padding := Padding(6 + lenSig + |apdu|, keys.crypt.blockSize);
      padCount := |padding|;
      padded := padded + padding;
    }
  }

  /** The middle of `encode_cmd`: the checksum goes between the counter and the APDU. */
  method Signed(keys: Keyset, spi: Spi, partCnt: seq<byte>, padded: seq<byte>, covered: seq<byte>)
    returns (body: seq<byte>)
    ensures body == partCnt + Check(keys, spi, covered) + padded
  {
    if spi.rcCcDs == CC {
      body := partCnt + keys.auth.Sign(covered) + padded;
    } else if spi.rcCcDs == RC {
      body := partCnt + keys.crc32(covered) + padded;
    } else {
      assert partCnt + [] == partCnt;
      body := partCnt + padded;
    }
  }

  /** The end of `encode_cmd`. */
  method Enveloped(keys: Keyset, spi: Spi, partHead: seq<byte>, body: seq<byte>) returns (r: Result<seq<byte>>)
    ensures r == Envelope(keys, spi, partHead, body)
  {
    var envelope := body;
    if spi.ciphering {
      var ciph := keys.crypt.encrypt(PadToBlock(envelope, keys.crypt.blockSize));
      envelope := partHead + ciph;
      envelope := WithLength(envelope);
    } else {
      envelope := partHead + envelope;
    }
    if |envelope| > 140 { return Err(TooLong); }
    r := Ok(envelope);
  }

  // ---------- decode_cmd ----------

  /** `s[:i]` for any i: a negative index counts from the end. */
  function UpTo(s: seq<byte>, i: int): seq<byte> {
    if i >= 0 then Take(s, i) else if -i <= |s| then s[..|s| + i] else []
  }

  datatype Command = Command(tar: seq<byte>, spi: Spi, apdu: seq<byte>)

  /** `decode_cmd`, which takes every packet for a ciphered one. */
  method DecodeCmd(keys: Keyset, encoded: seq<byte>) returns (r: Result<Command>)
    ensures r == DecodedCommand(keys, encoded) && Decodes(keys, encoded, r)
  {
    DecodeOutcome(keys, encoded);
    var cpl := FromBigEndian(Take(encoded, 2));
    var partHead := Take(Drop(encoded, 2), 8);
    var ciph := Drop(encoded, 10);
    if Excess(|ciph|, keys.crypt.blockSize) != 0 { return Err(NotWholeBlocks); }
    var envelope := keys.crypt.decrypt(ciph);
    if |partHead| < 8 { return Err(Truncated); }
    assert partHead == encoded[2..10];
    var (tar, spi) := ParseHead(partHead);
    var partCnt := Take(envelope, 6);
    var padCount := FromBigEndian(Drop(partCnt, 5));
    envelope := Drop(envelope, 6);
    var apdu := envelope;
    if spi.rcCcDs == CC {
      var cc := Take(envelope, 8);
      apdu := Drop(envelope, 8);
      FromBigEndianRoundTrip(encoded[..2]);
      if keys.auth.Sign(BigEndian(cpl, 2) + partHead + partCnt + apdu) != cc { return Err(BadChecksum); }
    } else if spi.rcCcDs == RC {
      return Err(Unsupported);
    } else if spi.rcCcDs != NO_RC_CC_DS {
      return Err(InvalidRcCcDs);
    }
    r := Ok(Command(tar, spi, UpTo(apdu, |apdu| - padCount)));
  }

  function DecodedCommand(keys: Keyset, encoded: seq<byte>): Result<Command> {
    var ciph := Drop(encoded, 10);
    if Excess(|ciph|, keys.crypt.blockSize) != 0 then Err(NotWholeBlocks)
    else if |encoded| < 10 then Err(Truncated)
    else DecodedBody(keys, encoded[..2], encoded[2..10], keys.crypt.decrypt(ciph))
  }

  function DecodedBody(keys: Keyset, cpl: seq<byte>, head: seq<byte>, body: seq<byte>): Result<Command>
    requires |cpl| == 2 && |head| == HEAD_LEN
  {
    var (tar, spi) := ParseHead(head);
    var cnt, rest := Take(body, COUNTER_LEN), Drop(body, COUNTER_LEN);
    var padCount := FromBigEndian(Drop(cnt, 5));
    if spi.rcCcDs == NO_RC_CC_DS then Ok(Command(tar, spi, UpTo(rest, |rest| - padCount)))
    else if spi.rcCcDs == RC then Err(Unsupported)
    else if spi.rcCcDs != CC then Err(InvalidRcCcDs)
    else
      var apdu := Drop(rest, CC_LEN);
      if keys.auth.Sign(cpl + head + cnt + apdu) != Take(rest, CC_LEN) then Err(BadChecksum)
      else Ok(Command(tar, spi, UpTo(apdu, |apdu| - padCount)))
  }

  // ---------- the round trip ----------

  /** Every ciphered command packet that could be built, with or without a cryptographic checksum, decodes
      to its TAR, SPI and the APDU without its padding. */
  lemma CommandRoundTrip(keys: Keyset, tar: seq<byte>, spi: Spi, apdu: seq<byte>)
    requires |tar| == 3 && keys.Lawful() && spi.ciphering
    requires CommandPacket(keys, tar, spi, apdu).Ok?
    ensures DecodedCommand(keys, CommandPacket(keys, tar, spi, apdu).value) ==
            if spi.rcCcDs == RC then Err(Unsupported) else Ok(Command(tar, spi, apdu))
  {
    var pad := CipherPadding(keys, spi, apdu);
    var head := Head(keys, tar, spi);
    var cnt := CounterPart(keys.cntr, |pad|);
    var check := Check(keys, spi, Covered(head, cnt, apdu + pad, SigLen(spi.rcCcDs)));
    HeadParses(keys, tar, spi);
    PaddingFits(keys, spi, apdu);
    EnvelopeRoundTrip(keys, spi, head, cnt, check, apdu, pad);
  }

  lemma PaddingFits(keys: Keyset, spi: Spi, apdu: seq<byte>)
    ensures |CipherPadding(keys, spi, apdu)| < 16
    ensures spi.ciphering ==>
              var n := |CipherPadding(keys, spi, apdu)|;
              Excess(COUNTER_LEN + SigLen(spi.rcCcDs) + |apdu| + n, keys.crypt.blockSize) == 0
  {
  }

  lemma HeadParses(keys: Keyset, tar: seq<byte>, spi: Spi)
    requires |tar| == 3
    ensures ParseHead(Head(keys, tar, spi)) == (tar, spi)
  {
    SpiRoundTrip(spi);
    assert Head(keys, tar, spi)[5..] == tar;
    assert Head(keys, tar, spi)[1] == SpiBytes(spi)[0] && Head(keys, tar, spi)[2] == SpiBytes(spi)[1];
  }

  /** The same for a packet given by its parts: the length that was signed is the length sent. */
  lemma EnvelopeRoundTrip(keys: Keyset, spi: Spi, head: seq<byte>, cnt: seq<byte>, check: seq<byte>, apdu: seq<byte>,
                          pad: seq<byte>)
    requires keys.Lawful() && spi.ciphering && spi.rcCcDs != 3
    requires |head| == HEAD_LEN && ParseHead(head).1 == spi && |cnt| == COUNTER_LEN && cnt[5] == |pad| < 16
    requires |head + cnt + (apdu + pad)| + SigLen(spi.rcCcDs) < Pow256(2)
    requires check == Check(keys, spi, Covered(head, cnt, apdu + pad, SigLen(spi.rcCcDs)))
    requires Excess(COUNTER_LEN + SigLen(spi.rcCcDs) + |apdu| + |pad|, keys.crypt.blockSize) == 0
    requires Envelope(keys, spi, head, cnt + check + (apdu + pad)).Ok?
    ensures DecodedCommand(keys, Envelope(keys, spi, head, cnt + check + (apdu + pad)).value) ==
            if spi.rcCcDs == RC then Err(Unsupported) else Ok(Command(ParseHead(head).0, spi, apdu))
  {
    var body := cnt + check + (apdu + pad);
    assert |body| == COUNTER_LEN + SigLen(spi.rcCcDs) + |apdu| + |pad|;
    var ciph := keys.crypt.encrypt(body);
    assert |ciph| == |body| && keys.crypt.decrypt(ciph) == body;
    var cpl := BigEndian(|head + ciph|, 2);
    SplitPacket(cpl, head, ciph);
    assert |head + ciph| == |head + cnt + (apdu + pad)| + SigLen(spi.rcCcDs);
    BodyRoundTrip(keys, cpl, head, spi, cnt, check, apdu, pad);
  }

  /** Section 5.1 of ETSI TS 102 225: what stands where in a ciphered command packet. */
  ghost predicate LaidOut(keys: Keyset, tar: seq<byte>, spi: Spi, apdu: seq<byte>, p: seq<byte>) {
    && HEAD_LEN + 2 <= |p| <= 140
    && FromBigEndian(p[..2]) == |p[2..]|                                             // CPL
    && HeadLaidOut(keys, tar, spi, p[2..10])
    && Excess(|p[10..]|, keys.crypt.blockSize) == 0
    && BodyLaidOut(keys, spi, apdu, p[..10], keys.crypt.decrypt(p[10..]))
  }

  ghost predicate HeadLaidOut(keys: Keyset, tar: seq<byte>, spi: Spi, head: seq<byte>)
    requires |head| == HEAD_LEN
  {
    && head[0] == |head[1..]| + COUNTER_LEN + SigLen(spi.rcCcDs)                     // CHL: from SPI to the checksum
    && head[1..3] == SpiBytes(spi)
    && head[3] / 16 == keys.kicIdx && head[3] % 16 == keys.crypt.algo                // KIc
    && head[4] / 16 == keys.kidIdx && head[4] % 16 == keys.auth.algo                 // KID
    && head[5..] == tar
  }

  /** The deciphered rest; `front` is CPL and header as sent. */
  ghost predicate BodyLaidOut(keys: Keyset, spi: Spi, apdu: seq<byte>, front: seq<byte>, body: seq<byte>) {
    var n := SigLen(spi.rcCcDs);
    var pad := |body| - COUNTER_LEN - n - |apdu|;
    && 0 <= pad < keys.crypt.blockSize && body[5] == pad
    && FromBigEndian(body[..5]) == keys.cntr
    && body[COUNTER_LEN + n..] == apdu + Zeros(pad)
    && Checks(keys, spi, front + body[..COUNTER_LEN] + body[COUNTER_LEN + n..], body[COUNTER_LEN..COUNTER_LEN + n])
  }

  /** `check` is the checksum asked for, of `covered`. */
  ghost predicate Checks(keys: Keyset, spi: Spi, covered: seq<byte>, check: seq<byte>) {
    && (spi.rcCcDs == CC ==> Signs(keys.auth, covered, check))
    && (spi.rcCcDs == RC ==> check == keys.crc32(covered))
    && (spi.rcCcDs == NO_RC_CC_DS ==> check == [])
  }

  /** A cryptographic checksum covers the data and as many zeros as complete its last block. */
  ghost predicate Signs(auth: Auth, data: seq<byte>, check: seq<byte>) {
    exists z: seq<byte> :: CompletesBlock(z, |data|, auth.blockSize) && check == auth.mac(data + z)
  }

  predicate CompletesBlock(z: seq<byte>, len: nat, size: BlockSize) {
    |z| < size && len + |z| == Blocks(len, size) && forall x <- z :: x == 0
  }

  lemma CheckChecks(keys: Keyset, spi: Spi, covered: seq<byte>)
    ensures spi.rcCcDs != 3 ==> Checks(keys, spi, covered, Check(keys, spi, covered))
    ensures Signs(keys.auth, covered, keys.auth.Sign(covered))
  {
    var z := Padding(|covered|, keys.auth.blockSize);
    PaddedLen(|covered|, keys.auth.blockSize);
    assert CompletesBlock(z, |covered|, keys.auth.blockSize);
  }

  /** A packet in the clear has no CPL of its own, but the checksum covers the one it would have. */
  ghost predicate PlainLaidOut(keys: Keyset, tar: seq<byte>, spi: Spi, apdu: seq<byte>, p: seq<byte>) {
    && HEAD_LEN <= |p| <= 140
    && HeadLaidOut(keys, tar, spi, p[..8])
    && |p| == HEAD_LEN + COUNTER_LEN + SigLen(spi.rcCcDs) + |apdu|
    && BodyLaidOut(keys, spi, apdu, BigEndian(|p|, 2) + p[..8], p[8..])
  }

  lemma PlainCommandLayout(keys: Keyset, tar: seq<byte>, spi: Spi, apdu: seq<byte>)
    requires |tar| == 3 && keys.Lawful() && !spi.ciphering
    requires CommandPacket(keys, tar, spi, apdu).Ok?
    ensures PlainLaidOut(keys, tar, spi, apdu, CommandPacket(keys, tar, spi, apdu).value)
  {
    var head := Head(keys, tar, spi);
    var cnt := CounterPart(keys.cntr, 0);
    assert apdu + [] == apdu;
    var check := Check(keys, spi, Covered(head, cnt, apdu, SigLen(spi.rcCcDs)));
    var body := cnt + check + apdu;
    var p := head + body;
    assert |check| == SigLen(spi.rcCcDs) && |p| == |head + cnt + apdu| + SigLen(spi.rcCcDs);
    assert p[..8] == head && p[8..] == body;
    HeadFields(keys, tar, spi);
    BodyLayout(keys, spi, BigEndian(|p|, 2), head, cnt, check, apdu, []);
  }

  lemma CommandLayout(keys: Keyset, tar: seq<byte>, spi: Spi, apdu: seq<byte>)
    requires |tar| == 3 && keys.Lawful() && spi.ciphering
    requires CommandPacket(keys, tar, spi, apdu).Ok?
    ensures LaidOut(keys, tar, spi, apdu, CommandPacket(keys, tar, spi, apdu).value)
  {
    var pad := CipherPadding(keys, spi, apdu);
    var head := Head(keys, tar, spi);
    var cnt := CounterPart(keys.cntr, |pad|);
    var padded := apdu + pad;
    var check := Check(keys, spi, Covered(head, cnt, padded, SigLen(spi.rcCcDs)));
    var body := cnt + check + padded;
    assert |check| == SigLen(spi.rcCcDs) && |body| == COUNTER_LEN + SigLen(spi.rcCcDs) + |apdu| + |pad|;
    var ciph := keys.crypt.encrypt(body);
    assert |ciph| == |body| && keys.crypt.decrypt(ciph) == body;
    var cpl := BigEndian(|head + ciph|, 2);
    SplitPacket(cpl, head, ciph);
    BigEndianRoundTrip(|head + ciph|, 2);
    HeadFields(keys, tar, spi);
    assert |head + ciph| == |head + cnt + padded| + SigLen(spi.rcCcDs);
    BodyLayout(keys, spi, cpl, head, cnt, check, apdu, pad);
  }

  lemma BodyLayout(keys: Keyset, spi: Spi, cpl: seq<byte>, head: seq<byte>, cnt: seq<byte>, check: seq<byte>,
                   apdu: seq<byte>, pad: seq<byte>)
    requires keys.cntr < Pow256(5) && |pad| < keys.crypt.blockSize && cnt == CounterPart(keys.cntr, |pad|) &&
             pad == Zeros(|pad|)
    requires |check| == SigLen(spi.rcCcDs) && check == Check(keys, spi, cpl + (head + cnt + (apdu + pad)))
    ensures BodyLaidOut(keys, spi, apdu, cpl + head, cnt + check + (apdu + pad))
  {
    SplitBody(cnt, check, apdu + pad);
    BigEndianRoundTrip(keys.cntr, 5);
    assert cnt[..5] == BigEndian(keys.cntr, 5);
    CheckChecks(keys, spi, cpl + (head + cnt + (apdu + pad)));
    assert cpl + head + cnt + (apdu + pad) == cpl + (head + cnt + (apdu + pad));
  }

  lemma SplitBody(cnt: seq<byte>, check: seq<byte>, padded: seq<byte>)
    requires |cnt| == COUNTER_LEN
    ensures var body, n := cnt + check + padded, |check|;
            && body[..COUNTER_LEN] == cnt && body[..5] == cnt[..5] && body[5] == cnt[5]
            && body[COUNTER_LEN..COUNTER_LEN + n] == check && body[COUNTER_LEN + n..] == padded
  {
  }

  lemma HeadFields(keys: Keyset, tar: seq<byte>, spi: Spi)
    requires |tar| == 3
    ensures var head := Head(keys, tar, spi);
            && head[0] == 13 + SigLen(spi.rcCcDs) && head[1..3] == SpiBytes(spi) && head[5..] == tar
            && head[3] / 16 == keys.kicIdx && head[3] % 16 == keys.crypt.algo
            && head[4] / 16 == keys.kidIdx && head[4] % 16 == keys.auth.algo
  {
  }

  lemma SplitPacket(cpl: seq<byte>, head: seq<byte>, ciph: seq<byte>)
    requires |cpl| == 2 && |head| == HEAD_LEN
    ensures var packet := cpl + (head + ciph);
            && packet[..2] == cpl && packet[2..10] == head && packet[10..] == ciph
            && packet[2..] == head + ciph && packet[..10] == cpl + head
  {
  }

  lemma BodyRoundTrip(keys: Keyset, cpl: seq<byte>, head: seq<byte>, spi: Spi, cnt: seq<byte>, check: seq<byte>,
                      apdu: seq<byte>, pad: seq<byte>)
    requires |cpl| == 2 && |head| == HEAD_LEN && ParseHead(head).1 == spi && |pad| < 256
    requires |cnt| == COUNTER_LEN && cnt[5] == |pad| && |check| == SigLen(spi.rcCcDs)
    requires spi.rcCcDs == CC ==> check == keys.auth.Sign(cpl + (head + cnt + (apdu + pad)))
    requires spi.rcCcDs != 3
    ensures DecodedBody(keys, cpl, head, cnt + check + (apdu + pad)) ==
            if spi.rcCcDs == RC then Err(Unsupported) else Ok(Command(ParseHead(head).0, spi, apdu))
  {
    var body := cnt + check + (apdu + pad);
    var rest := check + (apdu + pad);
    assert Take(body, COUNTER_LEN) == cnt && Drop(body, COUNTER_LEN) == rest;
    OneByte(cnt);
    assert (apdu + pad)[..|apdu|] == apdu;
    if spi.rcCcDs == CC {
      assert Drop(rest, CC_LEN) == apdu + pad && Take(rest, CC_LEN) == check;
      assert cpl + head + cnt + (apdu + pad) == cpl + (head + cnt + (apdu + pad));
    } else if spi.rcCcDs == NO_RC_CC_DS {
      assert rest == apdu + pad;
    }
  }

  lemma OneByte(cnt: seq<byte>)
    requires |cnt| == COUNTER_LEN
    ensures FromBigEndian(Drop(cnt, 5)) == cnt[5]
  {
    assert Drop(cnt, 5) == [cnt[5]];
    assert FromBigEndian([cnt[5]][..0]) == 0;
  }

  // ---------- packets that nobody built ----------

  /** What `decode_cmd` makes of any octets, field by field: the SPI stands in octets 3 and 4, the TAR in 7 to 9. */
  predicate Decodes(keys: Keyset, encoded: seq<byte>, r: Result<Command>) {
    if Excess(|Drop(encoded, 10)|, keys.crypt.blockSize) != 0 then r == Err(NotWholeBlocks)
    else if |encoded| < 10 then r == Err(Truncated)
    else
      var body := keys.crypt.decrypt(encoded[10..]);
      var cnt, cc, signed := Take(body, 6), Take(Drop(body, 6), 8), Drop(Drop(body, 6), 8);
      match encoded[3] % 4
      case 0 => r.Ok? && Reads(encoded, cnt, Drop(body, 6), r.value)
      case 1 => r == Err(Unsupported)
      case 2 =>
        if cc != keys.auth.Sign(encoded[..10] + cnt + signed) then r == Err(BadChecksum)
        else r.Ok? && Reads(encoded, cnt, signed, r.value)
      case _ => r == Err(InvalidRcCcDs)
  }

  lemma DecodeOutcome(keys: Keyset, encoded: seq<byte>)
    ensures Decodes(keys, encoded, DecodedCommand(keys, encoded))
  {
    if |encoded| >= 10 {
      var head := encoded[2..10];
      assert head[1] == encoded[3] && head[2] == encoded[4] && head[5..] == encoded[7..10];
      assert encoded[..2] + head == encoded[..10];
    }
  }

  /** TAR and SPI are the packet's, and from the APDU the padding is taken off that the counter part announces; more
      padding than there are octets counts from the end twice over. */
  predicate Reads(encoded: seq<byte>, cnt: seq<byte>, apdu: seq<byte>, c: Command)
    requires |encoded| >= 10
  {
    var pad := FromBigEndian(Drop(cnt, 5));
    && c.tar == encoded[7..10] && c.spi == ParseSpi(encoded[3], encoded[4])
    && c.apdu == if pad <= |apdu| then apdu[..|apdu| - pad]
                 else if pad <= 2 * |apdu| then apdu[..2 * |apdu| - pad] else []
  }

  /** Whatever stands in the place of the checksum of a ciphered packet: it is refused exactly if that is not the
      checksum of all the rest. */
  lemma TamperedCommand(keys: Keyset, front: seq<byte>, cnt: seq<byte>, cc: seq<byte>, apdu: seq<byte>)
    requires keys.Lawful() && |front| == 10 && front[3] % 4 == CC && |cnt| == COUNTER_LEN && |cc| == CC_LEN
    requires Excess(|cnt + cc + apdu|, keys.crypt.blockSize) == 0
    ensures var r := DecodedCommand(keys, front + keys.crypt.encrypt(cnt + cc + apdu));
            if cc != keys.auth.Sign(front + cnt + apdu) then r == Err(BadChecksum)
            else r.Ok? && r.value.tar == front[7..] && (cnt[5] <= |apdu| ==> r.value.apdu == apdu[..|apdu| - cnt[5]])
  {
    var body := cnt + cc + apdu;
    var encoded := front + keys.crypt.encrypt(body);
    assert encoded[10..] == keys.crypt.encrypt(body) && encoded[..10] == front && Drop(encoded, 10) == encoded[10..];
    assert encoded[7..10] == front[7..] && encoded[3] == front[3];
    SplitBody(cnt, cc, apdu);
    assert Take(body, 6) == cnt && Drop(body, 6) == cc + apdu;
    assert Take(cc + apdu, 8) == cc && Drop(cc + apdu, 8) == apdu;
    OneByte(cnt);
    DecodeOutcome(keys, encoded);
  }

  // ---------- what the checksum fixes ----------

  /** Zero padding is ambiguous, yet the padded string that is signed determines header, counter part and
      APDU: the CPL at its front fixes how much of it is padding. */
  lemma SignedStringIsInjective(bs: BlockSize, sigLen: nat, head: seq<byte>, cnt: seq<byte>, apdu: seq<byte>,
                                head': seq<byte>, cnt': seq<byte>, apdu': seq<byte>)
    requires |head| == |head'| == HEAD_LEN && |cnt| == |cnt'| == COUNTER_LEN
    requires |head + cnt + apdu| + sigLen < Pow256(2) && |head' + cnt' + apdu'| + sigLen < Pow256(2)
    requires PadToBlock(Covered(head, cnt, apdu, sigLen), bs) == PadToBlock(Covered(head', cnt', apdu', sigLen), bs)
    ensures head == head' && cnt == cnt' && apdu == apdu'
  {
    var c, c' := Covered(head, cnt, apdu, sigLen), Covered(head', cnt', apdu', sigLen);
    var p := PadToBlock(c, bs);
    CoveredFields(head, cnt, apdu, sigLen);
    CoveredFields(head', cnt', apdu', sigLen);
    assert c[..2] == p[..2] == c'[..2];
    assert |c| == |c'|;
    assert c == p[..|c|] && c' == p[..|c'|];
  }

  lemma CoveredFields(head: seq<byte>, cnt: seq<byte>, apdu: seq<byte>, sigLen: nat)
    requires |head| == HEAD_LEN && |cnt| == COUNTER_LEN && |head + cnt + apdu| + sigLen < Pow256(2)
    ensures var c := Covered(head, cnt, apdu, sigLen);
            && FromBigEndian(c[..2]) == |c| - 2 + sigLen
            && head == c[2..10] && cnt == c[10..16] && apdu == c[16..]
  {
    var c := Covered(head, cnt, apdu, sigLen);
    BigEndianRoundTrip(|head + cnt + apdu| + sigLen, 2);
    assert c[..2] == BigEndian(|head + cnt + apdu| + sigLen, 2);
  }
}
