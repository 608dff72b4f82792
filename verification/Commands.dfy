/** The transfer loops of pySim/commands.py, against the memory of a card. */
module Commands {
  import opened Wrappers
  import opened Bytes
  import opened CardMemory

  /** How a read ends: data, nothing to read, or an exception. */
  datatype ReadResult = Data(value: seq<byte>) | NoData | ReadFailed

  /** How a write ends: skipped because the card already holds the data, written, or with the exception
      of the step that failed. */
  datatype WriteResult = Skipped | Written | Refused | TooLong | Unverified | VerifyFailed {
    predicate Success() { Skipped? || Written? }
  }

  function Min(a: nat, b: nat): nat { if a < b then a else b }

  lemma {:induction false} SpliceAt<T>(s: seq<T>, offset: nat, data: seq<T>, i: nat)
    requires offset + |data| <= |s| && i < |s|
    ensures Splice(s, offset, data)[i] == if offset <= i < offset + |data| then data[i - offset] else s[i]
  {
    if data != [] { SpliceAt(s, offset, data[..|data| - 1], i); }
  }

  lemma SpliceExtends<T>(s: seq<T>, offset: nat, data: seq<T>, k: nat, n: nat)
    requires k <= n <= |data| && offset + n <= |s|
    ensures Splice(Splice(s, offset, data[..k]), offset + k, data[k..n]) == Splice(s, offset, data[..n])
  {
    var t := Splice(s, offset, data[..k]);
    forall i | 0 <= i < |s| ensures Splice(t, offset + k, data[k..n])[i] == Splice(s, offset, data[..n])[i] {
      SpliceAt(t, offset + k, data[k..n], i);
      SpliceAt(s, offset, data[..k], i);
      SpliceAt(s, offset, data[..n], i);
    }
  }

  lemma SpliceEnds<T>(s: seq<T>, offset: nat, data: seq<T>)
    ensures data[..|data|] == data && Splice(s, offset, data[..0]) == s
  {
  }

  lemma SlicesMeet<T>(s: seq<T>, a: nat, b: nat, c: nat)
    requires a <= b <= c <= |s|
    ensures s[a..b] + s[b..c] == s[a..c] && [] + s[b..c] == s[b..c]
  {
  }

  /** The data is there already. */
  ghost predicate Holds<T>(s: seq<T>, offset: nat, data: seq<T>) {
    offset + |data| <= |s| && s[offset..offset + |data|] == data
  }

  /** What a splice holds: the data where it was written, everything else as before. */
  lemma {:induction false} SpliceHolds<T>(s: seq<T>, offset: nat, data: seq<T>)
    requires offset + |data| <= |s|
    ensures Splice(s, offset, data)[offset..offset + |data|] == data
    ensures forall i | 0 <= i < |s| && !(offset <= i < offset + |data|) :: Splice(s, offset, data)[i] == s[i]
  {
    forall i | 0 <= i < |s|
      ensures Splice(s, offset, data)[i] == if offset <= i < offset + |data| then data[i - offset] else s[i]
    {
      SpliceAt(s, offset, data, i);
    }
  }

  class SimCardCommands {
    /** Octets a secure channel adds to a command, if there is one. */
    var scpOverhead: Option<nat>

    constructor (scpOverhead: Option<nat>)
      ensures this.scpOverhead == scpOverhead
    {
      this.scpOverhead := scpOverhead;
    }

    /** A channel must leave room for at least one octet of data. */
    predicate Usable()
      reads this
    {
      scpOverhead.Some? ==> scpOverhead.value < 255
    }

    /** `max_cmd_len` */
    function MaxCmdLen(): (n: nat)
      requires Usable()
      reads this
      ensures 0 < n <= 255 && n + (if scpOverhead.Some? then scpOverhead.value else 0) == 255
    {
      match scpOverhead
      case Some(overhead) => 255 - overhead
      case None => 255
    }

    /** `read_binary`; without a length it reads to the end of the file. */
    method ReadBinary(file: TransparentFile, length: Option<nat>, offset: nat) returns (r: ReadResult)
      requires Usable() && file.Valid()
      modifies file`refusals, file`readRefusals
      ensures file.refusals >= old(file.refusals) && file.readRefusals >= old(file.readRefusals)
      ensures var n := if length.Some? then length.value else |file.content| - offset;
              && (r.Data? ==> 0 < n && offset + n <= |file.content| && r.value == file.content[offset..offset + n])
              && (r.NoData? <==> n < 0 && file.refusals == old(file.refusals))
              && ((0 < n && offset + n <= |file.content| && file.refusals == old(file.refusals) &&
                   file.readRefusals == old(file.readRefusals)) ==> r.Data?)
    {
      var ok := file.Select();
      if !ok { return ReadFailed; }
      var n: int := if length.Some? then length.value else |file.content| - offset;
      if n < 0 { return NoData; }
      if n == 0 { return ReadFailed; }
      var totalData: seq<byte> := [];
      var chunkOffset := 0;
      while chunkOffset < n
        invariant 0 <= chunkOffset <= n && file.refusals == old(file.refusals) &&
                  file.readRefusals == old(file.readRefusals)
        invariant HasRead(file, offset, chunkOffset, totalData)
      {
        var chunkLen := Min(MaxCmdLen(), n - chunkOffset);
        var ok, data := ReadChunk(file, offset, chunkOffset, chunkLen, totalData);
        if !ok { return ReadFailed; }
        totalData := data;
        chunkOffset := chunkOffset + chunkLen;
      }
      r := Data(totalData);
    }

    /** `data` is what the file holds in the first `n` octets from the offset on. */
    predicate HasRead(file: TransparentFile, offset: nat, n: nat, data: seq<byte>)
      reads file
    {
      if n == 0 then data == [] else offset + n <= |file.content| && data == file.content[offset..offset + n]
    }

    /** One round of the read loop. */
    method ReadChunk(file: TransparentFile, offset: nat, from: nat, length: nat, totalData: seq<byte>)
      returns (ok: bool, data: seq<byte>)
      requires file.Valid() && 0 < length && HasRead(file, offset, from, totalData)
      modifies file`readRefusals
      ensures ok ==> HasRead(file, offset, from + length, data) && file.readRefusals == old(file.readRefusals)
      ensures !ok && offset + from + length <= |file.content| ==> file.readRefusals > old(file.readRefusals)
      ensures file.readRefusals >= old(file.readRefusals)
    {
      var chunk := file.ReadBinary(offset + from, length);
      if chunk.None? { return false, totalData; }
      SlicesMeet(file.content, offset, offset + from, offset + from + length);
      ok, data := true, totalData + chunk.value;
    }

    method WriteChunk(file: TransparentFile, data: seq<byte>, offset: nat, from: nat, length: nat,
                      ghost before: seq<byte>) returns (ok: bool)
      requires file.Valid() && 0 < length && from + length <= |data|
      requires |before| == |file.content| && file.content == Splice(before, offset, data[..from])
      modifies file`content, file`refusals
      ensures |file.content| == |before|
      ensures ok ==> offset + from + length <= |before| && file.refusals == old(file.refusals)
      ensures file.content == if ok then Splice(before, offset, data[..from + length]) else old(file.content)
      ensures !ok && offset + |data| <= |before| ==> file.refusals > old(file.refusals)
      ensures file.refusals >= old(file.refusals)
    {
      ok := file.UpdateBinary(offset + from, data[from..from + length]);
      if ok {
        SpliceExtends(before, offset, data, from, from + length);
        assert file.content == Splice(before, offset, data[..from + length]);
      }
    }

    /** The write loop of `update_binary`: `chunks` whole chunks are written when it fails. */
    method WriteChunks(file: TransparentFile, data: seq<byte>, offset: nat) returns (r: WriteResult, ghost chunks: nat)
      requires Usable() && file.Valid()
      modifies file`content, file`refusals
      ensures file.Valid() && file.refusals >= old(file.refusals)
      ensures r.Written? && data != [] ==> offset + |data| <= |file.content|
      ensures r.Written? ==> file.content == Splice(old(file.content), offset, data)
      ensures r.Refused? ==> PrefixWritten(old(file.content), file.content, offset, data, chunks * MaxCmdLen())
      ensures r.Written? || r.Refused?
      ensures offset + |data| <= |file.content| && file.refusals == old(file.refusals) ==> r.Written?
    {
      var chunkOffset := 0;
      ghost var done := 0;             // chunks * MaxCmdLen()
      chunks := 0;
      SpliceEnds(file.content, offset, data);
      while chunkOffset < |data|
        invariant 0 <= chunkOffset <= |data| && (chunkOffset > 0 ==> offset + chunkOffset <= |file.content|)
        invariant done == chunks * MaxCmdLen() && (chunkOffset < |data| ==> chunkOffset == done)
        invariant |file.content| == |old(file.content)| && file.refusals == old(file.refusals)
        invariant file.content == Splice(old(file.content), offset, data[..chunkOffset])
      {
        var chunkLen := Min(MaxCmdLen(), |data| - chunkOffset);
        var ok := WriteChunk(file, data, offset, chunkOffset, chunkLen, old(file.content));
        if !ok { return Refused, chunks; }
        OneMore(chunks, MaxCmdLen());
        chunkOffset := chunkOffset + chunkLen;
        chunks, done := chunks + 1, done + MaxCmdLen();
      }
      r := Written;
    }

    /** `__verify_binary` */
    method VerifyBinary(file: TransparentFile, data: seq<byte>, offset: nat) returns (r: WriteResult)
      requires Usable() && file.Valid()
      modifies file`refusals, file`readRefusals
      ensures r.Written? || r.Unverified? || r.VerifyFailed?
      ensures r.Written? ==> offset + |data| <= |file.content| && file.content[offset..offset + |data|] == data
      ensures r.VerifyFailed? ==> offset + |data| <= |file.content| && file.content[offset..offset + |data|] != data
      ensures r.Unverified? && 0 < |data| && offset + |data| <= |file.content|
              ==> file.refusals > old(file.refusals) || file.readRefusals > old(file.readRefusals)
      ensures file.refusals >= old(file.refusals) && file.readRefusals >= old(file.readRefusals)
    {
      var res := ReadBinary(file, Some(|data|), offset);
      r := if !res.Data? then Unverified else if res.value != data then VerifyFailed else Written;
    }

    /** `update_binary`.  Whether or not writes are conserved, and whether or not the file may be read,
        writes that are accepted lead to the same content; a refused write leaves whole chunks of the data
        behind and nothing else changed. */
    method UpdateBinary(file: TransparentFile, data: seq<byte>, offset: nat, verify: bool, conserve: bool)
      returns (r: WriteResult, ghost chunks: nat)
      requires Usable() && file.Valid() && data != []
      modifies file
      ensures file.Valid() && file.refusals >= old(file.refusals) && file.readRefusals >= old(file.readRefusals)
      ensures r.Success() || r.Unverified?
              ==> offset + |data| <= |file.content| && file.content == Splice(old(file.content), offset, data)
      ensures r.Refused? ==> PrefixWritten(old(file.content), file.content, offset, data, chunks * MaxCmdLen())
      ensures r.Skipped? ==> conserve && file.content == old(file.content)
      ensures (conserve && Holds(old(file.content), offset, data) &&
               file.refusals == old(file.refusals) && file.readRefusals == old(file.readRefusals)) ==> r.Skipped?
      ensures r.Unverified? ==> verify
      ensures !r.TooLong? && !r.VerifyFailed?
      ensures (offset + |data| <= |file.content| && file.refusals == old(file.refusals) &&
               (verify ==> file.readRefusals == old(file.readRefusals))) ==> r.Success()
    {
      chunks := 0;
      SpliceEnds(file.content, offset, data);
      var ok := file.Select();
      if !ok { return Refused, 0; }
      if conserve {
        var current := ReadBinary(file, Some(|data|), offset);
        assert current.Data? && Holds(file.content, offset, data) ==> current == Data(data);
        if current == Data(data) {
          SpliceSame(file.content, offset, data);
          return Skipped, 0;
        }
      }
      ok := file.Select();
      if !ok { return Refused, 0; }
      r, chunks := WriteChunks(file, data, offset);
      if r.Written? && verify {
        SpliceHolds(old(file.content), offset, data);
        r := VerifyBinary(file, data, offset);
      }
    }

    /** `read_binary` after `update_binary` returns the data written, conserving or not, verified or not. */
    method UpdateAndRead(file: TransparentFile, data: seq<byte>, offset: nat, verify: bool, conserve: bool)
      returns (w: WriteResult, r: ReadResult)
      requires Usable() && file.Valid() && data != []
      modifies file
      ensures file.Valid()
      ensures r.Data? ==> w.Success() && r.value == data && file.content == Splice(old(file.content), offset, data)
      ensures file.refusals == old(file.refusals) && file.readRefusals == old(file.readRefusals)
              ==> (r.Data? <==> offset + |data| <= |old(file.content)|)
    {
      ghost var chunks;
      r := ReadFailed;
      w, chunks := UpdateBinary(file, data, offset, verify, conserve);
      if w.Success() {
        SpliceHolds(old(file.content), offset, data);
        r := ReadBinary(file, Some(|data|), offset);
      }
    }

    /** `read_record` */
    method ReadRecord(file: RecordFile, number: nat) returns (r: Option<seq<byte>>)
      requires file.Valid()
      modifies file`refusals, file`readRefusals
      ensures r.Some? ==> 1 <= number <= |file.records| && r.value == file.records[number - 1]
      ensures file.refusals >= old(file.refusals) && file.readRefusals >= old(file.readRefusals)
      ensures (1 <= number <= |file.records| && file.refusals == old(file.refusals) &&
               file.readRefusals == old(file.readRefusals)) ==> r.Some?
    {
      var ok := file.Select();
      if !ok { return None; }
      r := file.ReadRecord(number, file.recordLen);
    }

    /** `update_record`.  What an accepted write leaves in the file does not depend on `conserve`, with `forceLen`
        or without.  What is reported does: see `ForceLenTellsThemApart`. */
    method UpdateRecord(file: RecordFile, number: nat, data: seq<byte>, forceLen: bool, verify: bool, conserve: bool,
                        leftpad: bool)
      returns (r: WriteResult)
      requires file.Valid() && 1 <= number
      modifies file
      ensures file.Valid() && file.refusals >= old(file.refusals) && file.readRefusals >= old(file.readRefusals)
      ensures r.TooLong? <==> file.refusals == old(file.refusals) && !forceLen && |data| > file.recordLen
      ensures file.refusals == old(file.refusals)
              ==> file.records == Updated(old(file.records), file.recordLen, number, data, forceLen, leftpad)
      ensures r.Success() || r.Unverified?
              ==> file.records == Updated(old(file.records), file.recordLen, number, data, forceLen, leftpad)
      ensures r.Success() || r.Unverified? ==>
                && number <= |file.records|
                && (if !forceLen then Fills(file.records[number - 1], data, leftpad)
                    else data <= file.records[number - 1])
      ensures r.Refused? || r.TooLong? || r.Skipped? ==> file.records == old(file.records)
      ensures r.Skipped? ==> conserve && number <= |file.records| &&
                             Sent(file.recordLen, data, forceLen, leftpad) <= file.records[number - 1]
      ensures r.Success() || r.Unverified?
              ==> Accepted(old(file.records), file.recordLen, number, data, forceLen, conserve)
      ensures file.refusals == old(file.refusals) && file.readRefusals == old(file.readRefusals)
              ==> (r.Success() <==> Accepted(old(file.records), file.recordLen, number, data, forceLen, conserve))
      ensures (conserve && number <= |old(file.records)| && file.refusals == old(file.refusals) &&
               file.readRefusals == old(file.readRefusals) && (forceLen || |data| <= file.recordLen) &&
               Sent(file.recordLen, data, forceLen, leftpad) <= old(file.records)[number - 1]) ==> r.Skipped?
      ensures !r.VerifyFailed? && (r.Unverified? ==> verify)
    {
      var ok := file.Select();
      if !ok { return Refused; }
      if forceLen {
        r := StoreRecord(file, number, data, |data|, verify, conserve);
      } else if |data| > file.recordLen {
        r := TooLong;
      } else {
        var padded := Padded(data, file.recordLen, leftpad);
        r := StoreRecord(file, number, padded, file.recordLen, verify, conserve);
        assert r.Skipped? ==> file.records[number - 1] == padded;
      }
      if r.Skipped? {
        SkippedIsUpdated(file.records, file.recordLen, number, data, forceLen, leftpad);
      }
    }

    /** The rest of `update_record`, with the data padded as requested. */
    method StoreRecord(file: RecordFile, number: nat, data: seq<byte>, recLength: nat, verify: bool, conserve: bool)
      returns (r: WriteResult)
      requires file.Valid() && 1 <= number && |data| == recLength
      modifies file
      ensures file.Valid() && file.refusals >= old(file.refusals)
      ensures r.Refused? ==> file.records == old(file.records)
      ensures r.Refused? && file.refusals == old(file.refusals)
              ==> recLength != file.recordLen || number > |file.records|
      ensures r.Skipped? ==> conserve && number <= |file.records| && file.records == old(file.records) &&
                             data <= file.records[number - 1]
      ensures r.Written? || r.Unverified? ==> number <= |old(file.records)| && recLength == file.recordLen &&
                                              file.records == old(file.records)[number - 1 := data]
      ensures (conserve && number <= |old(file.records)| && data <= old(file.records)[number - 1] &&
               file.refusals == old(file.refusals) && file.readRefusals == old(file.readRefusals)) ==> r.Skipped?
      ensures file.readRefusals >= old(file.readRefusals) && |file.records| == |old(file.records)|
      ensures !r.TooLong? && !r.VerifyFailed? && (r.Unverified? ==> verify)
      ensures (recLength == file.recordLen && number <= |old(file.records)| && file.refusals == old(file.refusals) &&
               (verify ==> file.readRefusals == old(file.readRefusals))) ==> r.Success()
    {
      if conserve {
        var current := ReadRecord(file, number);
        if current.Some? && Take(current.value, recLength) == data { return Skipped; }
      }
      var ok := file.UpdateRecord(number, data);
      if !ok { return Refused; }
      r := Written;
      if verify {
        var res := ReadRecord(file, number);
        r := if res.None? then Unverified else if res.value != data then VerifyFailed else Written;
      }
    }
  }

  function Filler(n: nat): (r: seq<byte>)
    ensures |r| == n && forall x <- r :: x == 0xff
  {
    seq(n, _ => 0xff)
  }

  /** `rpad` or `lpad` with 'ff' to the record length. */
  function Padded(data: seq<byte>, length: nat, left: bool): (r: seq<byte>)
    requires |data| <= length
    ensures |r| == length && Fills(r, data, left)
  {
    if left then Filler(length - |data|) + data else data + Filler(length - |data|)
  }

  /** The record is the data, at its end if `left` and else at its start, and 0xff in all other places. */
  predicate Fills(record: seq<byte>, data: seq<byte>, left: bool) {
    && |data| <= |record|
    && var gap := |record| - |data|;
    if left then record[gap..] == data && forall i | 0 <= i < gap :: record[i] == 0xff
    else record[..|data|] == data && forall i | |data| <= i < |record| :: record[i] == 0xff
  }

  /** The octets `update_record` sends. */
  function Sent(recordLen: nat, data: seq<byte>, forceLen: bool, left: bool): seq<byte> {
    if forceLen || |data| > recordLen then data else Padded(data, recordLen, left)
  }

  /** What `update_record` leaves behind if nothing is refused. */
  function Updated(records: seq<seq<byte>>, recordLen: nat, number: nat, data: seq<byte>, forceLen: bool, left: bool)
    : (r: seq<seq<byte>>)
    requires 1 <= number
    ensures |r| == |records|
  {
    var sent := Sent(recordLen, data, forceLen, left);
    if number <= |records| && |sent| == recordLen then records[number - 1 := sent] else records
  }

  /** Whether `update_record` then returns, or raises. */
  predicate Accepted(records: seq<seq<byte>>, recordLen: nat, number: nat, data: seq<byte>, forceLen: bool,
                     conserve: bool)
    requires 1 <= number
  {
    number <= |records| &&
    if forceLen then |data| == recordLen || (conserve && data <= records[number - 1]) else |data| <= recordLen
  }

  /** Conserving writes never changes what the file ends up holding.  It changes what is reported exactly if, with
      `forceLen`, the data is a proper prefix of the record. */
  lemma ForceLenTellsThemApart(records: seq<seq<byte>>, recordLen: nat, number: nat, data: seq<byte>, forceLen: bool)
    requires 1 <= number && forall r <- records :: |r| == recordLen
    ensures Accepted(records, recordLen, number, data, forceLen, true) !=
            Accepted(records, recordLen, number, data, forceLen, false)
            <==> forceLen && number <= |records| && data < records[number - 1]
  {
    if number <= |records| { assert |records[number - 1]| == recordLen; }
  }

  /** A write may be skipped if the record already starts with what would be sent. */
  lemma SkippedIsUpdated(records: seq<seq<byte>>, recordLen: nat, number: nat, data: seq<byte>, forceLen: bool,
                         left: bool)
    requires 1 <= number <= |records| && |records[number - 1]| == recordLen
    requires Sent(recordLen, data, forceLen, left) <= records[number - 1]
    ensures Updated(records, recordLen, number, data, forceLen, left) == records
  {
    var sent, record := Sent(recordLen, data, forceLen, left), records[number - 1];
    if |sent| == recordLen {
      assert sent == record;
      assert records[number - 1 := record] == records;
    }
  }

  lemma {:induction false} SpliceSame<T>(s: seq<T>, offset: nat, data: seq<T>)
    requires Holds(s, offset, data)
    ensures Splice(s, offset, data) == s
  {
    forall i | 0 <= i < |s| ensures Splice(s, offset, data)[i] == s[i] {
      SpliceAt(s, offset, data, i);
      assert offset <= i < offset + |data| ==> s[offset..offset + |data|][i - offset] == s[i];
    }
  }

  lemma OneMore(n: nat, m: nat)
    ensures (n + 1) * m == n * m + m
  {
  }

  /** The first `done` octets of `data`, and not all of them, have replaced what was there. */
  ghost predicate PrefixWritten(before: seq<byte>, after: seq<byte>, offset: nat, data: seq<byte>, done: nat) {
    done < |data| && (done > 0 ==> offset + done <= |before|) && after == Splice(before, offset, data[..done])
  }
}
