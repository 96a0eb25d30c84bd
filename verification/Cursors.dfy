/** Reading a byte string from left to right, a byte or an integer at a time. */
module Cursors {
  import opened Bytes
  import opened Wrappers

  /** What can go wrong in the protocol or in a pack. */
  datatype Error =
    | InvalidPacket
    | UnexpectedPacket
    | ProtocolError
    | InvalidHeader
    | UnsupportedVersion
    | InvalidFormat
    | InvalidObject
    | ObjectTooLarge
    | IncompletePack
    | InvalidDeltaInstruction
    | ObjectNotFound
    | NotACommit
    | NotATree
    | InvalidCommit
    | InvalidTree
    | InvalidFile
    | EndOfStream

  // ----- What the readers answer, as functions of the bytes and the position.

  function TakeAt(data: seq<byte>, pos: nat, n: nat): (r: Result<seq<byte>, Error>)
    ensures r.Failure? ==> r.error == EndOfStream
  {
    if pos + n <= |data| then Success(data[pos..pos + n]) else Failure(EndOfStream)
  }

  /** An unsigned LEB128 number whose first byte counts `2^shift`. A part is refused when the
      shift would push a bit of it past the 64th. */
  function Leb128From(data: seq<byte>, pos: nat, shift: nat): (r: Result<Parsed<nat>, Error>)
    ensures r.Failure? ==> r.error.EndOfStream? || r.error.InvalidFormat?
    ensures r.Success? ==> pos < r.value.next <= |data| && shift < 64 && r.value.value < Pow2(64 - shift)
    decreases |data| - pos
  {
    if pos >= |data| then Failure(EndOfStream)
    else
      var part := data[pos] % 128;
      if shift >= 64 || part >= Pow2(64 - shift) then Failure(InvalidFormat)
      else if data[pos] < 128 then Success(Parsed(part, pos + 1))
      else
        var rest :- Leb128From(data, pos + 1, shift + 7);
        Pow2Seven(64 - (shift + 7));
        Success(Parsed(part + 128 * rest.value, rest.next))
  }

  /** The number whose bytes so far make `value`, and whose others are `rest`. */
  ghost function Shifted(value: nat, shift: nat, rest: Result<Parsed<nat>, Error>): Result<Parsed<nat>, Error> {
    match rest
    case Failure(error) => Failure(error)
    case Success(parsed) => Success(Parsed(value + Shl(parsed.value, shift), parsed.next))
  }

  lemma ShiftedStep(data: seq<byte>, pos: nat, shift: nat, value: nat)
    requires pos < |data| && shift < 64 && data[pos] % 128 < Pow2(64 - shift)
    ensures Shifted(value, shift, Leb128From(data, pos, shift))
         == if data[pos] < 128
            then Success(Parsed(value + Shl(data[pos] % 128, shift), pos + 1))
            else Shifted(value + Shl(data[pos] % 128, shift), shift + 7, Leb128From(data, pos + 1, shift + 7))
  {
    var rest := Leb128From(data, pos + 1, shift + 7);
    if data[pos] >= 128 && rest.Success? {
      ShlSpread(data[pos] % 128, rest.value.value, shift);
    }
  }

  function Leb128At(data: seq<byte>, pos: nat): (r: Result<Parsed<nat>, Error>)
    ensures r.Failure? ==> r.error.EndOfStream? || r.error.InvalidFormat?
    ensures r.Success? ==> pos < r.value.next <= |data| && r.value.value < U64_LIMIT
  {
    Pow2At64(64 - 0);
    Leb128From(data, pos, 0)
  }

  /** The distance to a base after a byte that announced another one: each byte adds one and
      shifts what was read, so that no distance has two spellings. */
  function OffsetMore(data: seq<byte>, pos: nat, value: nat): (r: Result<Parsed<nat>, Error>)
    ensures r.Failure? ==> r.error.EndOfStream? || r.error.InvalidFormat?
    ensures r.Success? ==> pos < r.value.next <= |data| && r.value.value < U64_LIMIT
    decreases |data| - pos
  {
    if pos >= |data| then Failure(EndOfStream)
    else if value + 1 > U64_SHIFTED_7 then Failure(InvalidFormat)
    else
      var more := (value + 1) * 128 + data[pos] % 128;
      if data[pos] < 128 then Success(Parsed(more, pos + 1)) else OffsetMore(data, pos + 1, more)
  }

  function OffsetAt(data: seq<byte>, pos: nat): (r: Result<Parsed<nat>, Error>)
    ensures r.Failure? ==> r.error.EndOfStream? || r.error.InvalidFormat?
    ensures r.Success? ==> pos < r.value.next <= |data| && r.value.value < U64_LIMIT
  {
    if pos >= |data| then Failure(EndOfStream)
    else if data[pos] < 128 then Success(Parsed(data[pos], pos + 1))
    else OffsetMore(data, pos + 1, data[pos] % 128)
  }

  /** Reads through `data`; a read that fails may leave the position anywhere, and its callers
      give the cursor up. */
  class Cursor {
    const data: seq<byte>
    var pos: nat

    constructor (data: seq<byte>, pos: nat)
      ensures this.data == data && this.pos == pos
    {
      this.data := data;
      this.pos := pos;
    }

    method Take(n: nat) returns (r: Result<seq<byte>, Error>)
      modifies this
      ensures r == TakeAt(data, old(pos), n)
      ensures pos == if r.Success? then old(pos) + n else old(pos)
    {
      var end := pos + n;
      if end > |data| {
        return Failure(EndOfStream);
      }
      r := Success(data[pos..end]);
      pos := end;
    }

    method Byte() returns (r: Result<byte, Error>)
      modifies this
      ensures r == if old(pos) < |data| then Success(data[old(pos)]) else Failure(EndOfStream)
      ensures pos == if r.Success? then old(pos) + 1 else old(pos)
    {
      var taken := Take(1);
      r := if taken.Failure? then Failure(taken.error) else Success(taken.value[0]);
    }

    method ReadLeb128() returns (r: Result<nat, Error>)
      modifies this
      ensures r.Failure? ==> Leb128At(data, old(pos)) == Failure(r.error)
      ensures r.Success? ==> Leb128At(data, old(pos)) == Success(Parsed(r.value, pos))
    {
      var value: nat, shift: nat := 0, 0;
      ghost var whole := Leb128At(data, pos);
      while true
        invariant pos == old(pos) || pos <= |data|
        invariant whole == Shifted(value, shift, Leb128From(data, pos, shift))
        decreases |data| - pos
      {
        ghost var start := pos;
        var byte :- Byte();
        var part := byte % 128;
        if shift >= 64 || part >= Pow2(64 - shift) {
          return Failure(InvalidFormat);
        }
        ShiftedStep(data, start, shift, value);
        value := value + Shl(part, shift);
        if byte < 128 {
          return Success(value);
        }
        shift := shift + 7;
      }
    }

    method ReadOffset() returns (r: Result<nat, Error>)
      modifies this
      ensures r.Failure? ==> OffsetAt(data, old(pos)) == Failure(r.error)
      ensures r.Success? ==> OffsetAt(data, old(pos)) == Success(Parsed(r.value, pos))
    {
      var byte :- Byte();
      var value := byte % 128;
      while byte >= 128
        invariant pos <= |data| && 0 <= value
        invariant OffsetAt(data, old(pos))
               == if byte < 128 then Success(Parsed(value, pos)) else OffsetMore(data, pos, value)
        decreases |data| - pos + (if byte >= 128 then 1 else 0)
      {
        byte :- Byte();
        if value + 1 > U64_SHIFTED_7 {
          return Failure(InvalidFormat);
        }
        value := (value + 1) * 128 + byte % 128;
      }
      return Success(value);
    }
  }
}
