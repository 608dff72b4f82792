/** `decode_resp` of pySim/ota.py, against an encoder that follows section 5.2 of ETSI TS 102 225 and
    section 4.3 of 3GPP TS 31.115. */
module OtaResponse {
  import opened Wrappers
  import opened Bytes
  import opened Sms
  import opened Ota

  /** SmsResponsePacket */
  datatype Response = Response(rpl: nat, rhl: byte, tar: seq<byte>, cntr: seq<byte>, pcntr: byte, status: byte,
                               cc: seq<byte>, data: seq<byte>)

  /** CompactRemoteResp */
  datatype Compact = Compact(commands: byte, statusWord: seq<byte>, data: seq<byte>)

  datatype Decoded = Decoded(response: Response, compact: Option<Compact>)

  const RPI: byte := 0x71
  const POR_OK: byte := 0
  const PLAIN_LEN: nat := 6     // RPL, RHL and TAR are never ciphered
  const FIXED_LEN: nat := 13    // RPL to STS

  function ParseResponse(s: seq<byte>): Option<Response> {
    if |s| < FIXED_LEN then None
    else
      var rhl: int := s[2];
      var ccLen := rhl - 10;
      if ccLen < 0 || |s| < FIXED_LEN + ccLen then None
      else Some(Response(FromBigEndian(s[..2]), s[2], s[3..6], s[6..11], s[11], s[12],
                         s[FIXED_LEN..FIXED_LEN + ccLen], s[FIXED_LEN + ccLen..]))
  }

  /** `s[:-n]` for n > 0 */
  function DropLast(s: seq<byte>, n: nat): seq<byte> {
    if n <= |s| then s[..|s| - n] else []
  }

  function ParseCompact(s: seq<byte>): Option<Compact> {
    if |s| < 3 then None else Some(Compact(s[0], s[1..3], s[3..]))
  }

  /** The checksum verification; `packet` is the response packet in the clear. */
  function ChecksumError(keys: Keyset, spi: Spi, udh: seq<byte>, packet: seq<byte>, res: Response): Option<Error>
    requires ParseResponse(packet).Some? && |res.cc| == |ParseResponse(packet).value.cc|
  {
    if spi.porRcCcDs == NO_RC_CC_DS then
      if res.cc != [] then Some(UnexpectedChecksum) else None
    else if spi.porRcCcDs == CC then
      var covered := udh + packet[..FIXED_LEN] + packet[FIXED_LEN + |res.cc|..];
      if keys.auth.Sign(covered) != res.cc then Some(BadChecksum) else None
    else Some(Unsupported)
  }

  method DecodeResp(keys: Keyset, spi: Spi, data: seq<byte>) returns (r: Result<Decoded>)
    ensures r == DecodedResponse(keys, spi, data)
    ensures r.Ok? ==> Authentic(keys, spi, data, r.value.response)
  {
    if DecodedResponse(keys, spi, data).Ok? { AcceptedIsAuthentic(keys, spi, data); }
    if data == [] { return Err(Truncated); }
    if data[0] != 2 { return Err(NoRpi); }
    var udhd := ParseUdh(data);
    if udhd.None? { return Err(Truncated); }
    var (ies, remainder) := udhd.value;
    if !exists ie <- ies :: ie.iei == RPI { return Err(NoRpi); }
    var res := ParseResponse(remainder);
    if res.None? { return Err(Truncated); }
    if spi.porCiphered {
      var ciphered := remainder[PLAIN_LEN..];
      if Excess(|ciphered|, keys.crypt.blockSize) != 0 { return Err(NotWholeBlocks); }
      remainder := remainder[..PLAIN_LEN] + keys.crypt.decrypt(ciphered);
      res := ParseResponse(remainder);
      if res.None? { return Err(Truncated); }
      assert DropLast(res.value.data, 0) == res.value.data;
      if res.value.pcntr != 0 {
        res := Some(res.value.(data := DropLast(res.value.data, res.value.pcntr)));
      }
    }
    r := Finish(keys, spi, data[..3], remainder, res.value);
  }

  /** The end of `decode_resp`. */
  method Finish(keys: Keyset, spi: Spi, udh: seq<byte>, packet: seq<byte>, res: Response) returns (r: Result<Decoded>)
    requires ParseResponse(packet).Some? && |res.cc| == |ParseResponse(packet).value.cc|
    ensures r == Verified(keys, spi, udh, packet, res)
  {
    var e := ChecksumError(keys, spi, udh, packet, res);
    if e.Some? { return Err(e.value); }
    var dec: Option<Compact> := None;
    if res.status == POR_OK && res.data != [] {
      dec := ParseCompact(res.data);
      if dec.None? { return Err(Truncated); }
    }
    r := Ok(Decoded(res, dec));
  }

  function DecodedResponse(keys: Keyset, spi: Spi, data: seq<byte>): Result<Decoded> {
    if data == [] then Err(Truncated)
    else if data[0] != 2 then Err(NoRpi)
    else
      match ParseUdh(data)
      case None => Err(Truncated)
      case Some((ies, packet)) =>
        if !exists ie <- ies :: ie.iei == RPI then Err(NoRpi)
        else DecodedPacket(keys, spi, data[..3], packet)
  }

  function DecodedPacket(keys: Keyset, spi: Spi, udh: seq<byte>, packet: seq<byte>): Result<Decoded> {
    if ParseResponse(packet).None? then Err(Truncated)
    else if !spi.porCiphered then Verified(keys, spi, udh, packet, ParseResponse(packet).value)
    else if Excess(|packet| - PLAIN_LEN, keys.crypt.blockSize) != 0 then Err(NotWholeBlocks)
    else
      var clear := packet[..PLAIN_LEN] + keys.crypt.decrypt(packet[PLAIN_LEN..]);
      match ParseResponse(clear)
      case None => Err(Truncated)
      case Some(res) => Verified(keys, spi, udh, clear, res.(data := DropLast(res.data, res.pcntr)))
  }

  function Verified(keys: Keyset, spi: Spi, udh: seq<byte>, packet: seq<byte>, res: Response): Result<Decoded>
    requires ParseResponse(packet).Some? && |res.cc| == |ParseResponse(packet).value.cc|
  {
    match ChecksumError(keys, spi, udh, packet, res)
    case Some(e) => Err(e)
    case None => Unchecked(res)
  }

  /** What follows the checksum verification: the response data of a successful remote command. */
  function Unchecked(res: Response): Result<Decoded> {
    if res.status != POR_OK || res.data == [] then Ok(Decoded(res, None))
    else if ParseCompact(res.data).None? then Err(Truncated)
    else Ok(Decoded(res, ParseCompact(res.data)))
  }

  // ---------- the sender ----------

  const UDH: seq<byte> := [2, RPI, 0]

  function RespPadding(keys: Keyset, spi: Spi, data: seq<byte>): seq<byte> {
    if spi.porCiphered then Padding(7 + SigLen(spi.porRcCcDs) + |data|, keys.crypt.blockSize) else []
  }

  /** RPL to STS of a response with `padCount` octets of padding. */
  function FixedPart(rpl: nat, rhl: byte, tar: seq<byte>, cntr: seq<byte>, padCount: byte, status: byte): (r: seq<byte>)
    requires rpl < Pow256(2) && |tar| == 3 && |cntr| == 5
    ensures |r| == FIXED_LEN && r[..2] == BigEndian(rpl, 2) && r[2] == rhl && r[3..6] == tar && r[6..11] == cntr
    ensures r[11] == padCount && r[12] == status
  {
    BigEndian(rpl, 2) + [rhl] + tar + cntr + [padCount, status]
  }

  function RespLength(keys: Keyset, spi: Spi, data: seq<byte>): nat {
    11 + SigLen(spi.porRcCcDs) + |data + RespPadding(keys, spi, data)|
  }

  /** A response packet as the card builds it: padded for ciphering, signed together with the UDH if
      asked for, ciphered from CNTR on if asked for. */
  function EncodeResp(keys: Keyset, spi: Spi, tar: seq<byte>, cntr: seq<byte>, status: byte, data: seq<byte>): seq<byte>
    requires |tar| == 3 && |cntr| == 5 && RespLength(keys, spi, data) < Pow256(2)
  {
    Carrying(keys, spi, tar, cntr, status, data, RespChecksum(keys, spi, tar, cntr, status, data))
  }

  /** The same with any octets in the place of the checksum. */
  function Carrying(keys: Keyset, spi: Spi, tar: seq<byte>, cntr: seq<byte>, status: byte, data: seq<byte>,
                    cc: seq<byte>): seq<byte>
    requires |tar| == 3 && |cntr| == 5 && RespLength(keys, spi, data) < Pow256(2)
  {
    var packet := RespFixed(keys, spi, tar, cntr, status, data) + cc + (data + RespPadding(keys, spi, data));
    UDH + if spi.porCiphered then packet[..PLAIN_LEN] + keys.crypt.encrypt(packet[PLAIN_LEN..]) else packet
  }

  /** What the card signs. */
  function RespCovered(keys: Keyset, spi: Spi, tar: seq<byte>, cntr: seq<byte>, status: byte,
                       data: seq<byte>): seq<byte>
    requires |tar| == 3 && |cntr| == 5 && RespLength(keys, spi, data) < Pow256(2)
  {
    UDH + RespFixed(keys, spi, tar, cntr, status, data) + (data + RespPadding(keys, spi, data))
  }

  function RespChecksum(keys: Keyset, spi: Spi, tar: seq<byte>, cntr: seq<byte>, status: byte,
                        data: seq<byte>): seq<byte>
    requires |tar| == 3 && |cntr| == 5 && RespLength(keys, spi, data) < Pow256(2)
  {
    if spi.porRcCcDs == CC then keys.auth.Sign(RespCovered(keys, spi, tar, cntr, status, data)) else []
  }

  function RespFixed(keys: Keyset, spi: Spi, tar: seq<byte>, cntr: seq<byte>, status: byte,
                     data: seq<byte>): (r: seq<byte>)
    requires |tar| == 3 && |cntr| == 5 && RespLength(keys, spi, data) < Pow256(2)
    ensures |r| == FIXED_LEN && r[2] == 10 + SigLen(spi.porRcCcDs) && r[3..6] == tar && r[6..11] == cntr
    ensures r[11] == |RespPadding(keys, spi, data)| && r[12] == status
  {
    FixedPart(RespLength(keys, spi, data), 10 + SigLen(spi.porRcCcDs), tar, cntr,
              |RespPadding(keys, spi, data)|, status)
  }

  // ---------- the round trip ----------

  lemma FieldsParse(part: seq<byte>, cc: seq<byte>, data: seq<byte>)
    requires |part| == FIXED_LEN && part[2] == 10 + |cc|
    ensures ParseResponse(part + cc + data) ==
            Some(Parsed(part, cc, data))
  {
    var s := part + cc + data;
    assert s[..FIXED_LEN] == part;
    assert s[..2] == part[..2] && s[3..6] == part[3..6] && s[6..11] == part[6..11];
    assert s[FIXED_LEN..FIXED_LEN + |cc|] == cc && s[FIXED_LEN + |cc|..] == data;
  }

  /** Whatever the response, in all four combinations of ciphering and checksum: the checksum verifies,
      exactly the padding is removed, and TAR, counter, status and response data come back.  Only a
      remote response too short to hold a status word is refused. */
  lemma ResponseRoundTrip(keys: Keyset, spi: Spi, tar: seq<byte>, cntr: seq<byte>, status: byte, data: seq<byte>)
    requires |tar| == 3 && |cntr| == 5 && keys.Lawful() && (spi.porRcCcDs == CC || spi.porRcCcDs == NO_RC_CC_DS)
    requires RespLength(keys, spi, data) < Pow256(2)
    ensures var r := DecodedResponse(keys, spi, EncodeResp(keys, spi, tar, cntr, status, data));
            if status == POR_OK && 0 < |data| < 3 then r == Err(Truncated)
            else r.Ok? && Reports(r.value, tar, cntr, status, data) &&
                 r.value.response.pcntr == |RespPadding(keys, spi, data)|
  {
    var cc := RespChecksum(keys, spi, tar, cntr, status, data);
    CarriedOutcome(keys, spi, tar, cntr, status, data, cc);
    ReportOf(RespFixed(keys, spi, tar, cntr, status, data), cc, tar, cntr, status, data);
  }

  lemma ReportOf(part: seq<byte>, cc: seq<byte>, tar: seq<byte>, cntr: seq<byte>, status: byte, data: seq<byte>)
    requires |part| == FIXED_LEN && part[3..6] == tar && part[6..11] == cntr && part[12] == status
    ensures var r := Unchecked(Parsed(part, cc, data));
            if status == POR_OK && 0 < |data| < 3 then r == Err(Truncated)
            else r.Ok? && Reports(r.value, tar, cntr, status, data) && r.value.response.pcntr == part[11]
  {
    if |data| >= 3 { assert data[1..3] == [data[1], data[2]]; }
  }

  /** The response says what the card reported; of a successful command it gives the number of commands, the last
      status word and the data. */
  predicate Reports(d: Decoded, tar: seq<byte>, cntr: seq<byte>, status: byte, data: seq<byte>) {
    && d.response.tar == tar && d.response.cntr == cntr && d.response.status == status && d.response.data == data
    && (if status == 0 && data != []
        then |data| >= 3 && d.compact == Some(Compact(data[0], [data[1], data[2]], data[3..]))
        else d.compact == None)
  }

  /** Whatever stands in the place of the checksum, ciphered or not: the response is refused exactly if that is not
      the checksum asked for, of the UDH and the packet around it, padding included. */
  lemma TamperedResponse(keys: Keyset, spi: Spi, tar: seq<byte>, cntr: seq<byte>, status: byte, data: seq<byte>,
                         cc: seq<byte>)
    requires |tar| == 3 && |cntr| == 5 && keys.Lawful() && spi.porRcCcDs == CC && |cc| == CC_LEN
    requires RespLength(keys, spi, data) < Pow256(2)
    ensures var covered := UDH + RespFixed(keys, spi, tar, cntr, status, data) + (data + RespPadding(keys, spi, data));
            DecodedResponse(keys, spi, Carrying(keys, spi, tar, cntr, status, data, cc)) == Err(BadChecksum)
            <==> cc != keys.auth.Sign(covered)
  {
    CarriedOutcome(keys, spi, tar, cntr, status, data, cc);
  }

  lemma CarriedOutcome(keys: Keyset, spi: Spi, tar: seq<byte>, cntr: seq<byte>, status: byte, data: seq<byte>,
                       cc: seq<byte>)
    requires |tar| == 3 && |cntr| == 5 && keys.Lawful() && |cc| == SigLen(spi.porRcCcDs)
    requires RespLength(keys, spi, data) < Pow256(2)
    ensures DecodedResponse(keys, spi, Carrying(keys, spi, tar, cntr, status, data, cc)) ==
            var part := RespFixed(keys, spi, tar, cntr, status, data);
            Outcome(keys, spi, part, cc, data, RespPadding(keys, spi, data))
  {
    var pad := RespPadding(keys, spi, data);
    var part := RespFixed(keys, spi, tar, cntr, status, data);
    UdhOfResponse(Sent(keys, spi, part + cc + (data + pad)));
    PacketOutcome(keys, spi, part, cc, data, pad);
  }

  /** A checksum that was not asked for is refused, and so is every response to a request for anything but a
      cryptographic checksum. */
  lemma UnaskedChecksum(keys: Keyset, spi: Spi, rpl: nat, tar: seq<byte>, cntr: seq<byte>, pad: seq<byte>, status: byte,
                        cc: seq<byte>, data: seq<byte>)
    requires rpl < Pow256(2) && |tar| == 3 && |cntr| == 5 && keys.Lawful() && |cc| <= 245 && |pad| < 256
    requires if spi.porCiphered then Excess(7 + |cc| + |data + pad|, keys.crypt.blockSize) == 0 else pad == []
    requires spi.porRcCcDs != CC
    ensures var part := FixedPart(rpl, 10 + |cc|, tar, cntr, |pad|, status);
            DecodedResponse(keys, spi, UDH + Sent(keys, spi, part + cc + (data + pad))) ==
            if spi.porRcCcDs != NO_RC_CC_DS then Err(Unsupported)
            else if cc != [] then Err(UnexpectedChecksum)
            else Unchecked(Parsed(part, [], data))
  {
    var part := FixedPart(rpl, 10 + |cc|, tar, cntr, |pad|, status);
    UdhOfResponse(Sent(keys, spi, part + cc + (data + pad)));
    PacketOutcome(keys, spi, part, cc, data, pad);
  }

  /** A packet as it is sent. */
  function Sent(keys: Keyset, spi: Spi, packet: seq<byte>): seq<byte>
    requires |packet| >= PLAIN_LEN
  {
    if spi.porCiphered then packet[..PLAIN_LEN] + keys.crypt.encrypt(packet[PLAIN_LEN..]) else packet
  }

  /** What the receiver makes of a packet with these parts. */
  function Outcome(keys: Keyset, spi: Spi, part: seq<byte>, cc: seq<byte>, data: seq<byte>,
                   pad: seq<byte>): Result<Decoded>
    requires |part| == FIXED_LEN
  {
    if spi.porRcCcDs == CC then
      if cc != keys.auth.Sign(UDH + part + (data + pad)) then Err(BadChecksum) else Unchecked(Parsed(part, cc, data))
    else if spi.porRcCcDs == NO_RC_CC_DS then
      if cc != [] then Err(UnexpectedChecksum) else Unchecked(Parsed(part, cc, data))
    else Err(Unsupported)
  }

  /** The same for any packet behind the UDH, with octets in the place of the checksum as its RHL has it. */
  lemma PacketOutcome(keys: Keyset, spi: Spi, part: seq<byte>, cc: seq<byte>, data: seq<byte>, pad: seq<byte>)
    requires keys.Lawful() && |part| == FIXED_LEN && part[11] == |pad| && part[2] == 10 + |cc|
    requires if spi.porCiphered then Excess(7 + |cc| + |data + pad|, keys.crypt.blockSize) == 0 else pad == []
    ensures DecodedPacket(keys, spi, UDH, Sent(keys, spi, part + cc + (data + pad))) ==
            Outcome(keys, spi, part, cc, data, pad)
  {
    var padded := data + pad;
    var packet := part + cc + padded;
    FieldsParse(part, cc, padded);
    assert |packet| == 6 + (7 + |cc| + |padded|);
    if spi.porCiphered {
      CipheredParses(keys, packet);
      assert DropLast(padded, |pad|) == data;
    } else {
      assert padded == data;
    }
    ChecksumOutcome(keys, spi, part, cc, padded, Parsed(part, cc, data));
  }

  function Parsed(part: seq<byte>, cc: seq<byte>, data: seq<byte>): Response
    requires |part| == FIXED_LEN
  {
    Response(FromBigEndian(part[..2]), part[2], part[3..6], part[6..11], part[11], part[12], cc, data)
  }

  /** The receiver compares the checksum with that of the octets the sender signed, and accepts none where none
      was asked for. */
  lemma ChecksumOutcome(keys: Keyset, spi: Spi, part: seq<byte>, cc: seq<byte>, padded: seq<byte>, res: Response)
    requires |part| == FIXED_LEN && ParseResponse(part + cc + padded).Some? &&
             ParseResponse(part + cc + padded).value.cc == cc
    requires res.cc == cc
    ensures ChecksumError(keys, spi, UDH, part + cc + padded, res) ==
            if spi.porRcCcDs == CC then
              if cc == keys.auth.Sign(UDH + part + padded) then None else Some(BadChecksum)
            else if spi.porRcCcDs == NO_RC_CC_DS then if cc == [] then None else Some(UnexpectedChecksum)
            else Some(Unsupported)
  {
    var packet := part + cc + padded;
    assert packet[..FIXED_LEN] == part && packet[FIXED_LEN + |cc|..] == padded;
  }

  /** What comes before the packet must be a header of two octets with an empty response packet identifier. */
  lemma HeaderOutcome(keys: Keyset, spi: Spi, data: seq<byte>)
    ensures DecodedResponse(keys, spi, data) ==
            if data != [] && data[0] != 2 then Err(NoRpi)
            else if |data| < 3 then Err(Truncated)
            else if data[1] != 0x71 || data[2] != 0 then Err(NoRpi)
            else DecodedPacket(keys, spi, data[..3], data[3..])
  {
    if |data| >= 3 && data[0] == 2 {
      var ies := ParseIes(data[1..3]);
      assert ies == if data[2] == 0 then [Ie(data[1], [])] else [] by {
        assert data[1..3][0] == data[1] && data[1..3][1] == data[2];
        assert data[2] == 0 ==> data[1..3][2..2] == [] && ParseIes(data[1..3][2..]) == [];
      }
      assert data[2] == 0 ==> ies[0].iei == data[1];
    }
  }

  /** A response packet without its header, deciphered if it was to be ciphered. */
  function Clear(keys: Keyset, spi: Spi, data: seq<byte>): seq<byte>
    requires |data| >= 9
  {
    if spi.porCiphered then data[3..9] + keys.crypt.decrypt(data[9..]) else data[3..]
  }

  /** The response carries the checksum that was asked for, of the header and all of the packet but the checksum. */
  predicate Authentic(keys: Keyset, spi: Spi, data: seq<byte>, res: Response) {
    && |data| >= 16 && |Clear(keys, spi, data)| >= 13 + |res.cc|
    && var clear, n := Clear(keys, spi, data), 13 + |res.cc|;
    && res.cc == clear[13..n]
    && (spi.porRcCcDs == 0 || spi.porRcCcDs == 2)
    && (spi.porRcCcDs == 0 ==> res.cc == [])
    && (spi.porRcCcDs == 2 ==> res.cc == keys.auth.Sign(data[..3] + clear[..13] + clear[n..]))
  }

  /** Nothing else is accepted. */
  lemma AcceptedIsAuthentic(keys: Keyset, spi: Spi, data: seq<byte>)
    requires DecodedResponse(keys, spi, data).Ok?
    ensures Authentic(keys, spi, data, DecodedResponse(keys, spi, data).value.response)
  {
    HeaderOutcome(keys, spi, data);
    var packet := data[3..];
    PacketFields(packet);
    assert packet[..PLAIN_LEN] == data[3..9] && packet[PLAIN_LEN..] == data[9..];
    PacketFields(Clear(keys, spi, data));
  }

  /** After deciphering, the data loses as many octets as the padding counter says, at most all. */
  lemma PaddingIsTaken(keys: Keyset, spi: Spi, udh: seq<byte>, packet: seq<byte>)
    requires spi.porCiphered && |packet| >= PLAIN_LEN && DecodedPacket(keys, spi, udh, packet).Ok?
    ensures var clear := ParseResponse(packet[..PLAIN_LEN] + keys.crypt.decrypt(packet[PLAIN_LEN..]));
            && clear.Some?
            && var d, n := clear.value.data, clear.value.pcntr;
            DecodedPacket(keys, spi, udh, packet).value.response ==
            clear.value.(data := if n <= |d| then d[..|d| - n] else [])
  {
  }

  /** Exactly the packets that hold their fixed fields and the checksum their RHL announces are read, field by
      field. */
  lemma PacketFields(s: seq<byte>)
    ensures ParseResponse(s).Some? <==> |s| >= FIXED_LEN && s[2] >= 10 && |s| - 3 >= s[2]
    ensures ParseResponse(s).Some? ==>
              var r, high: int, low: int, n: int := ParseResponse(s).value, s[0], s[1], s[2];
              && r.rpl == 256 * high + low && r.rhl == s[2] && r.tar == s[3..6] && r.cntr == s[6..11]
              && r.pcntr == s[11] && r.status == s[12] && r.cc == s[13..n + 3] && r.data == s[n + 3..]
  {
    if |s| >= 2 {
      assert s[..2][..1] == [s[0]];
      TwoOctets(s[..2]);
    }
  }

  lemma UdhOfResponse(packet: seq<byte>)
    ensures ParseUdh(UDH + packet) == Some(([Ie(RPI, [])], packet)) && (UDH + packet)[..3] == UDH
    ensures exists ie <- [Ie(RPI, [])] :: ie.iei == RPI
  {
    var ies := [Ie(RPI, [])];
    assert IeBytes(ies) == OneIe(ies[0]) + IeBytes(ies[1..]) == [RPI, 0];
    assert [|IeBytes(ies)|] + IeBytes(ies) == UDH;
    UdhRoundTrip(ies, packet);
    assert ies[0].iei == RPI;
  }

  /** Ciphered or not, a packet of the same lengths parses; deciphering gives the original back. */
  lemma CipheredParses(keys: Keyset, packet: seq<byte>)
    requires keys.Lawful() && ParseResponse(packet).Some? && Excess(|packet| - PLAIN_LEN, keys.crypt.blockSize) == 0
    ensures var sent := packet[..PLAIN_LEN] + keys.crypt.encrypt(packet[PLAIN_LEN..]);
            && ParseResponse(sent).Some? && |sent| == |packet|
            && sent[..PLAIN_LEN] + keys.crypt.decrypt(sent[PLAIN_LEN..]) == packet
  {
    var tail := packet[PLAIN_LEN..];
    var sent := packet[..PLAIN_LEN] + keys.crypt.encrypt(tail);
    assert sent[2] == packet[2] && sent[..PLAIN_LEN] == packet[..PLAIN_LEN];
    assert sent[PLAIN_LEN..] == keys.crypt.encrypt(tail);
  }
}
