/** The card's memory behind READ, UPDATE, SET DATA and RETRIEVE DATA.

    The card may refuse any command.  `readRefusals` counts the reads it refused although nothing was
    wrong with them, `refusals` the other commands. */
module CardMemory {
  import opened Wrappers
  import opened Bytes

  type StatusWord = n: nat | n < 0x10000

  /** Status word of a command carried out. */
  const SW_OK: StatusWord := 0x9000
  const SW_MORE_DATA: StatusWord := 0x62f1
  const SW_MORE_DATA_PROACTIVE: StatusWord := 0x62f2
  const SW_ERROR: StatusWord := 0x6f00

  /** Offsets are 15 bits wide: the top bit of P1 means something else. */
  const MAX_FILE: nat := 0x8000

  /** `s` with `data` written at `offset`, if it fits. */
  function Splice<T>(s: seq<T>, offset: nat, data: seq<T>): (r: seq<T>)
    ensures |r| == |s|
  {
    if data == [] || offset + |data| > |s| then s
    else Splice(s, offset, data[..|data| - 1])[offset + |data| - 1 := data[|data| - 1]]
  }

  class TransparentFile {
    var content: seq<byte>
    ghost var refusals: nat
    ghost var readRefusals: nat

    ghost predicate Valid()
      reads this
    {
      |content| <= MAX_FILE
    }

    constructor (content: seq<byte>)
      ensures this.content == content && refusals == 0 && readRefusals == 0
    {
      this.content, refusals, readRefusals := content, 0, 0;
    }

    method Select() returns (ok: bool)
      modifies this`refusals
      ensures refusals == old(refusals) + if ok then 0 else 1
    {
      ok := *;
      if !ok { refusals := refusals + 1; }
    }

    method ReadBinary(offset: nat, length: nat) returns (r: Option<seq<byte>>)
      modifies this`readRefusals
      ensures r.Some?
              ==> offset + length <= |content| && offset < MAX_FILE && r.value == content[offset..offset + length]
      ensures readRefusals == old(readRefusals) + if r.None? && offset + length <= |content| &&
              offset < MAX_FILE then 1 else 0
    {
      if offset + length > |content| || offset >= MAX_FILE { return None; }
      var ok: bool := *;
      if ok { return Some(content[offset..offset + length]); }
      readRefusals := readRefusals + 1;
      r := None;
    }

    method UpdateBinary(offset: nat, data: seq<byte>) returns (ok: bool)
      modifies this`content, this`refusals
      ensures ok ==> offset + |data| <= |content| && offset < MAX_FILE && content == Splice(old(content), offset, data)
      ensures !ok ==> content == old(content)
      ensures refusals == old(refusals) + if !ok && offset + |data| <= |content| && offset < MAX_FILE then 1 else 0
    {
      if offset + |data| > |content| || offset >= MAX_FILE { return false; }
      ok := *;
      if ok { content := Splice(content, offset, data); } else { refusals := refusals + 1; }
    }
  }

  class RecordFile {
    const recordLen: nat
    var records: seq<seq<byte>>
    ghost var refusals: nat
    ghost var readRefusals: nat

    ghost predicate Valid()
      reads this
    {
      forall r <- records :: |r| == recordLen
    }

    constructor (recordLen: nat, records: seq<seq<byte>>)
      ensures this.recordLen == recordLen && this.records == records && refusals == 0 && readRefusals == 0
    {
      this.recordLen, this.records, refusals, readRefusals := recordLen, records, 0, 0;
    }

    method Select() returns (ok: bool)
      modifies this`refusals
      ensures refusals == old(refusals) + if ok then 0 else 1
    {
      ok := *;
      if !ok { refusals := refusals + 1; }
    }

    method ReadRecord(number: nat, length: nat) returns (r: Option<seq<byte>>)
      modifies this`readRefusals
      ensures r.Some? ==> 1 <= number <= |records| && r.value == records[number - 1]
      ensures readRefusals == old(readRefusals) + if r.None? && 1 <= number <= |records| &&
              length == recordLen then 1 else 0
    {
      if number < 1 || number > |records| || length != recordLen { return None; }
      var ok: bool := *;
      if ok { return Some(records[number - 1]); }
      readRefusals := readRefusals + 1;
      r := None;
    }

    /** A record is only ever written as a whole. */
    method UpdateRecord(number: nat, data: seq<byte>) returns (ok: bool)
      modifies this`records, this`refusals
      ensures ok ==> 1 <= number <= |old(records)| && |data| == recordLen && records == old(records)[number - 1 := data]
      ensures !ok ==> records == old(records)
      ensures refusals == old(refusals) + if !ok && 1 <= number <= |old(records)| && |data| == recordLen then 1 else 0
    {
      if number < 1 || number > |records| || |data| != recordLen { return false; }
      ok := *;
      if ok { records := records[number - 1 := data]; } else { refusals := refusals + 1; }
    }
  }
}
