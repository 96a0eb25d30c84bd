/** The header of an entry of a pack: section "Object entry" of gitformat-pack. */
module EntryHeaders {
  import opened Bytes
  import opened Cursors
  import opened VarInts
  import opened Wrappers

  datatype Format = Sha1 | Sha256 {
    function ByteLength(): nat {
      if Sha1? then 20 else 32
    }
  }

  datatype ObjectType = Commit | Tree | Blob | Tag

  datatype Oid = Oid(bytes: seq<byte>)

  datatype EntryHeader =
    | Undeltified(kind: ObjectType, size: nat)
    | OfsDelta(distance: nat, size: nat)
    | RefDelta(base: Oid, size: nat)

  function KindOf(code: nat): Option<ObjectType> {
    match code
    case 1 => Some(Commit)
    case 2 => Some(Tree)
    case 3 => Some(Blob)
    case 4 => Some(Tag)
    case _ => None
  }

  /** The type code and the size an entry starts with. */
  function SizeAt(data: seq<byte>, pos: nat): (r: Result<Parsed<(nat, nat)>, Error>)
    ensures r.Failure? ==> r.error.EndOfStream? || r.error.InvalidFormat?
    ensures r.Success? ==> pos < r.value.next <= |data| && r.value.value.1 < U64_LIMIT
  {
    if pos >= |data| then Failure(InvalidFormat)
    else
      var initial := data[pos];
      var rest :- if initial < 128 then Success(Parsed(0, pos + 1)) else Leb128At(data, pos + 1);
      if rest.value > U64_SHIFTED_4 then Failure(InvalidFormat)
      else Success(Parsed((initial / 16 % 8, initial % 16 + 16 * rest.value), rest.next))
  }

  /** The header at `pos`, and the position after it. */
  function HeaderAt(format: Format, data: seq<byte>, pos: nat): (r: Result<Parsed<EntryHeader>, Error>)
    ensures r.Failure? ==> r.error.EndOfStream? || r.error.InvalidFormat?
    ensures r.Success? ==> pos < r.value.next <= |data| && r.value.value.size < U64_LIMIT
  {
    var start :- SizeAt(data, pos);
    HeaderFrom(format, data, start.value.0, start.value.1, start.next)
  }

  /** The header whose type code and size are read, up to `pos`. */
  function HeaderFrom(format: Format, data: seq<byte>, code: nat, size: nat, pos: nat)
    : (r: Result<Parsed<EntryHeader>, Error>)
    ensures r.Failure? ==> r.error.EndOfStream? || r.error.InvalidFormat?
    ensures r.Success? ==> pos <= r.value.next && r.value.value.size == size
    ensures r.Success? && pos <= |data| ==> r.value.next <= |data|
  {
    if KindOf(code).Some? then Success(Parsed(Undeltified(KindOf(code).value, size), pos))
    else if code == 6 then
      var distance :- OffsetAt(data, pos);
      Success(Parsed(OfsDelta(distance.value, size), distance.next))
    else if code == 7 && pos + format.ByteLength() <= |data| then
      var end := pos + format.ByteLength();
      Success(Parsed(RefDelta(Oid(data[pos..end]), size), end))
    else Failure(InvalidFormat)
  }

  method ReadHeader(format: Format, cursor: Cursor) returns (r: Result<EntryHeader, Error>)
    modifies cursor
    ensures r.Failure? ==> HeaderAt(format, cursor.data, old(cursor.pos)) == Failure(r.error)
    ensures r.Success? ==> HeaderAt(format, cursor.data, old(cursor.pos)) == Success(Parsed(r.value, cursor.pos))
  {
    var first := cursor.Byte();
    if first.Failure? {
      return Failure(InvalidFormat);
    }
    var initial := first.value;
    var rest := 0;
    if initial >= 128 {
      rest :- cursor.ReadLeb128();
    }
    if rest > U64_SHIFTED_4 {
      return Failure(InvalidFormat);
    }
    var size := initial % 16 + 16 * rest;
    assert SizeAt(cursor.data, old(cursor.pos)) == Success(Parsed((initial / 16 % 8, size), cursor.pos));
    match initial / 16 % 8 {
      case 1 => return Success(Undeltified(Commit, size));
      case 2 => return Success(Undeltified(Tree, size));
      case 3 => return Success(Undeltified(Blob, size));
      case 4 => return Success(Undeltified(Tag, size));
      case 6 =>
        var distance :- cursor.ReadOffset();
        return Success(OfsDelta(distance, size));
      case 7 =>
        var base := cursor.Take(format.ByteLength());
        if base.Failure? {
          return Failure(InvalidFormat);
        }
        return Success(RefDelta(Oid(base.value), size));
      case _ => return Failure(InvalidFormat);
    }
  }

  // ----- What a writer of packs puts there

  function CodeOf(header: EntryHeader): nat {
    match header
    case Undeltified(Commit, _) => 1
    case Undeltified(Tree, _) => 2
    case Undeltified(Blob, _) => 3
    case Undeltified(Tag, _) => 4
    case OfsDelta(_, _) => 6
    case RefDelta(_, _) => 7
  }

  /** Three bits of type and four of size, then the rest of the size as LEB128. */
  function EncodeSize(code: nat, size: nat): seq<byte>
    requires code < 8
  {
    var low := 16 * code + size % 16;
    if size < 16 then [low] else [128 + low] + EncodeLeb128(size / 16)
  }

  function EncodeBase(header: EntryHeader): seq<byte> {
    match header
    case Undeltified(_, _) => []
    case OfsDelta(distance, _) => EncodeOffset(distance)
    case RefDelta(base, _) => base.bytes
  }

  function EncodeHeader(header: EntryHeader): seq<byte> {
    EncodeSize(CodeOf(header), header.size) + EncodeBase(header)
  }

  ghost predicate Writable(format: Format, header: EntryHeader) {
    && header.size < U64_LIMIT
    && (header.OfsDelta? ==> header.distance < U64_LIMIT)
    && (header.RefDelta? ==> |header.base.bytes| == if format.Sha1? then 20 else 32)
  }

  lemma LowByte(code: nat, size: nat)
    requires code < 8
    ensures var low := 16 * code + size % 16;
            low % 16 == (128 + low) % 16 == size % 16 && low / 16 % 8 == (128 + low) / 16 % 8 == code && low < 128
  {
    var low := 16 * code + size % 16;
    assert low / 16 == code && (128 + low) / 16 == 8 + code;
  }

  lemma LongSize(code: nat, size: nat, data: seq<byte>, pos: nat)
    requires code < 8 && size < U64_LIMIT && size >= 16
    requires pos < |data| && data[pos] == 128 + 16 * code + size % 16
    requires StandsAt(data, pos + 1, EncodeLeb128(size / 16))
    ensures SizeAt(data, pos) == Success(Parsed((code, size), pos + 1 + |EncodeLeb128(size / 16)|))
  {
    Leb128RoundTrip(size / 16, data, pos + 1);
    LowByte(code, size);
  }

  lemma ShortSize(code: nat, size: nat, data: seq<byte>, pos: nat)
    requires code < 8 && size < 16 && pos < |data| && data[pos] == 16 * code + size
    ensures SizeAt(data, pos) == Success(Parsed((code, size), pos + 1))
  {
    LowByte(code, size);
  }

  lemma SizeRoundTrip(code: nat, size: nat, data: seq<byte>, pos: nat)
    requires code < 8 && size < U64_LIMIT && StandsAt(data, pos, EncodeSize(code, size))
    ensures SizeAt(data, pos) == Success(Parsed((code, size), pos + |EncodeSize(code, size)|))
  {
    var low := 16 * code + size % 16;
    if size < 16 {
      assert data[pos + 0] == [low][0];
      ShortSize(code, size, data, pos);
    } else {
      StandsApart(data, pos, [128 + low], EncodeLeb128(size / 16));
      assert data[pos + 0] == [128 + low][0];
      LongSize(code, size, data, pos);
    }
  }

  lemma HeaderFromRoundTrip(format: Format, header: EntryHeader, data: seq<byte>, pos: nat)
    requires Writable(format, header) && StandsAt(data, pos, EncodeBase(header))
    ensures HeaderFrom(format, data, CodeOf(header), header.size, pos)
         == Success(Parsed(header, pos + |EncodeBase(header)|))
  {
    match header
    case Undeltified(_, _) =>
    case OfsDelta(distance, _) => OffsetRoundTrip(distance, data, pos);
    case RefDelta(base, _) => assert data[pos..pos + |base.bytes|] == base.bytes;
  }

  lemma HeaderOfParts(format: Format, header: EntryHeader, data: seq<byte>, pos: nat, start: seq<byte>, base: seq<byte>,
                      end: nat)
    requires Writable(format, header) && start == EncodeSize(CodeOf(header), header.size) && base == EncodeBase(header)
    requires StandsAt(data, pos, start) && StandsAt(data, pos + |start|, base) && end == pos + |start| + |base|
    ensures HeaderAt(format, data, pos) == Success(Parsed(header, end))
  {
    SizeRoundTrip(CodeOf(header), header.size, data, pos);
    HeaderFromRoundTrip(format, header, data, pos + |start|);
  }

  lemma PartsStand(header: EntryHeader, data: seq<byte>, pos: nat) returns (start: seq<byte>, base: seq<byte>)
    requires StandsAt(data, pos, EncodeHeader(header))
    ensures start == EncodeSize(CodeOf(header), header.size) && base == EncodeBase(header)
    ensures StandsAt(data, pos, start) && StandsAt(data, pos + |start|, base)
    ensures |EncodeHeader(header)| == |start| + |base|
  {
    start, base := EncodeSize(CodeOf(header), header.size), EncodeBase(header);
    StandsApart(data, pos, start, base);
  }

  /** The headers of every kind and size up to 2^64 - 1 are read back from what writes them. */
  lemma HeaderRoundTrip(format: Format, header: EntryHeader, data: seq<byte>, pos: nat)
    requires Writable(format, header) && StandsAt(data, pos, EncodeHeader(header))
    ensures HeaderAt(format, data, pos) == Success(Parsed(header, pos + |EncodeHeader(header)|))
  {
    var start, base := PartsStand(header, data, pos);
    HeaderOfParts(format, header, data, pos, start, base, pos + |EncodeHeader(header)|);
  }

  // ----- Nothing else is read as a header

  /** Whether `code` spells a type and a size: three bits of type and four of size, then the rest of the
      size, in as many bytes as it may have. */
  ghost predicate IsSize(code: seq<byte>, kind: nat, size: nat) {
    && code != [] && kind < 8 && size < U64_LIMIT
    && if |code| == 1 then size < 16 && code[0] == 16 * kind + size
       else && code[0] == 128 + 16 * kind + size % 16 && |code| <= 11
            && SelfTerminated(code[1..]) && Leb128Value(code[1..]) == size / 16
  }

  lemma SizeIsRead(data: seq<byte>, pos: nat, code: seq<byte>, kind: nat, size: nat)
    requires IsSize(code, kind, size) && StandsAt(data, pos, code)
    ensures SizeAt(data, pos) == Success(Parsed((kind, size), pos + |code|))
  {
    assert data[pos + 0] == code[0];
    LowByte(kind, size);
    if |code| > 1 {
      var more := code[1..];
      assert code == [code[0]] + more;
      StandsApart(data, pos, [code[0]], more);
      Leb128IsExact(data, pos + 1, more);
    }
  }

  lemma SizeIsWritten(data: seq<byte>, pos: nat) returns (code: seq<byte>)
    requires SizeAt(data, pos).Success?
    ensures var read := SizeAt(data, pos).value;
            && IsSize(code, read.value.0, read.value.1) && StandsAt(data, pos, code) && read.next == pos + |code|
  {
    var read := SizeAt(data, pos).value;
    code := data[pos..read.next];
    if data[pos] < 128 {
      assert data[pos] == 16 * (data[pos] / 16) + data[pos] % 16;
    } else {
      Leb128Ends(data, pos + 1, 0);
      var more := data[pos + 1..read.next];
      assert code[1..] == more;
      Leb128IsExact(data, pos + 1, more);
      FirstByte(data[pos], Leb128Value(more));
    }
  }

  lemma FirstByte(first: byte, more: nat)
    requires first >= 128
    ensures var size := first % 16 + 16 * more;
            first == 128 + 16 * (first / 16 % 8) + size % 16 && size / 16 == more
  {
    assert first / 16 == 8 + first / 16 % 8;
  }

  /** Whether a header stands at `pos`, up to `next`: a type and a size, and then the distance to the base,
      or its ID. */
  ghost predicate IsHeader(format: Format, data: seq<byte>, pos: nat, code: seq<byte>, header: EntryHeader, next: nat) {
    && Writable(format, header) && IsSize(code, CodeOf(header), header.size) && StandsAt(data, pos, code)
    && StandsAt(data, pos + |code|, EncodeBase(header)) && next == pos + |code| + |EncodeBase(header)|
  }

  /** A header is read, and the position after it, if and only if it stands there. */
  lemma HeaderIsExact(format: Format, data: seq<byte>, pos: nat, header: EntryHeader, next: nat)
    ensures HeaderAt(format, data, pos) == Success(Parsed(header, next))
       <==> exists code :: IsHeader(format, data, pos, code, header, next)
  {
    if HeaderAt(format, data, pos) == Success(Parsed(header, next)) {
      var code := HeaderIsWritten(format, data, pos, header, next);
    }
    if code :| IsHeader(format, data, pos, code, header, next) {
      HeaderIsRead(format, data, pos, code, header, next);
    }
  }

  lemma HeaderIsRead(format: Format, data: seq<byte>, pos: nat, code: seq<byte>, header: EntryHeader, next: nat)
    requires IsHeader(format, data, pos, code, header, next)
    ensures HeaderAt(format, data, pos) == Success(Parsed(header, next))
  {
    var kind, middle := CodeOf(header), pos + |code|;
    SizeIsRead(data, pos, code, kind, header.size);
    BaseIsRead(format, header, data, middle, kind, next);
    PartsAreHeader(format, data, pos, kind, header, middle, next);
  }

  lemma BaseIsRead(format: Format, header: EntryHeader, data: seq<byte>, pos: nat, kind: nat, next: nat)
    requires Writable(format, header) && StandsAt(data, pos, EncodeBase(header))
    requires kind == CodeOf(header) && next == pos + |EncodeBase(header)|
    ensures HeaderFrom(format, data, kind, header.size, pos) == Success(Parsed(header, next))
  {
    HeaderFromRoundTrip(format, header, data, pos);
  }

  lemma PartsAreHeader(format: Format, data: seq<byte>, pos: nat, kind: nat, header: EntryHeader, middle: nat,
                       next: nat)
    requires SizeAt(data, pos) == Success(Parsed((kind, header.size), middle))
    requires HeaderFrom(format, data, kind, header.size, middle) == Success(Parsed(header, next))
    ensures HeaderAt(format, data, pos) == Success(Parsed(header, next))
  {
  }

  lemma HeaderIsWritten(format: Format, data: seq<byte>, pos: nat, header: EntryHeader, next: nat)
    returns (code: seq<byte>)
    requires HeaderAt(format, data, pos) == Success(Parsed(header, next))
    ensures IsHeader(format, data, pos, code, header, next)
  {
    code := SizeIsWritten(data, pos);
    BaseIsWritten(format, data, pos + |code|, SizeAt(data, pos).value.value.0, header, next);
  }

  lemma BaseIsWritten(format: Format, data: seq<byte>, pos: nat, kind: nat, header: EntryHeader, next: nat)
    requires pos <= |data| && header.size < U64_LIMIT
    requires HeaderFrom(format, data, kind, header.size, pos) == Success(Parsed(header, next))
    ensures kind == CodeOf(header) && Writable(format, header)
    ensures StandsAt(data, pos, EncodeBase(header)) && next == pos + |EncodeBase(header)|
  {
    match header
    case Undeltified(_, _) =>
    case OfsDelta(distance, _) =>
      OffsetUnique(data, pos);
      assert data[pos..next] == EncodeBase(header);
    case RefDelta(_, _) =>
  }
}
