/** The packets of the protocol, and the pack in the answer to a fetch: sections "pkt-line Format"
    of gitprotocol-common and "fetch" of gitprotocol-v2. */
module PktLines {
  import opened Bytes
  import opened Cursors
  import opened Numbers
  import opened Wrappers

  const MAX_DATA_LENGTH: nat := 65516

  datatype Packet = Flush | Delimiter | ResponseEnd | Data(data: seq<byte>)

  function PacketAt(data: seq<byte>, pos: nat): (r: Result<Parsed<Packet>, Error>)
    ensures r.Success? ==> pos < r.value.next <= |data|
  {
    var code :- TakeAt(data, pos, 4);
    match ParseUnsigned(code, 16, 0x1_0000)
    case None => Failure(InvalidPacket)
    case Some(length) =>
      if length == 0 then Success(Parsed(Flush, pos + 4))
      else if length == 1 then Success(Parsed(Delimiter, pos + 4))
      else if length == 2 then Success(Parsed(ResponseEnd, pos + 4))
      else if length == 3 || length - 4 > MAX_DATA_LENGTH then Failure(InvalidPacket)
      else
        var payload :- TakeAt(data, pos + 4, length - 4);
        Success(Parsed(Data(payload), pos + length))
  }

  method ReadPacket(cursor: Cursor) returns (r: Result<Packet, Error>)
    modifies cursor
    ensures r.Failure? ==> PacketAt(cursor.data, old(cursor.pos)) == Failure(r.error)
    ensures r.Success? ==> PacketAt(cursor.data, old(cursor.pos)) == Success(Parsed(r.value, cursor.pos))
  {
    var code :- cursor.Take(4);
    var length := ParseUnsigned(code, 16, 0x1_0000);
    if length.None? {
      return Failure(InvalidPacket);
    }
    match length.value {
      case 0 => return Success(Flush);
      case 1 => return Success(Delimiter);
      case 2 => return Success(ResponseEnd);
      case 3 => return Failure(InvalidPacket);
      case _ =>
        if length.value - 4 > MAX_DATA_LENGTH {
          return Failure(InvalidPacket);
        }
        var payload :- cursor.Take(length.value - 4);
        return Success(Data(payload));
    }
  }

  // ----- What is written is read back

  /** `n` in four hexadecimal digits. */
  function Hex4(n: nat): (code: seq<byte>)
    requires n < 0x1_0000
    ensures |code| == 4
  {
    [HexDigit(n / 0x1000), HexDigit(n / 0x100 % 16), HexDigit(n / 16 % 16), HexDigit(n % 16)]
  }

  predicate Writable(packet: Packet) {
    packet.Data? ==> |packet.data| <= MAX_DATA_LENGTH
  }

  function Encoded(packet: Packet): seq<byte>
    requires Writable(packet)
  {
    match packet
    case Flush => Hex4(0)
    case Delimiter => Hex4(1)
    case ResponseEnd => Hex4(2)
    case Data(data) => Hex4(|data| + 4) + data
  }

  method WritePacket(packet: Packet, out: seq<byte>) returns (longer: seq<byte>)
    requires Writable(packet)
    ensures longer == out + Encoded(packet)
  {
    match packet {
      case Flush => return out + [0x30, 0x30, 0x30, 0x30];
      case Delimiter => return out + [0x30, 0x30, 0x30, 0x31];
      case ResponseEnd => return out + [0x30, 0x30, 0x30, 0x32];
      case Data(data) =>
        longer := out + Hex4(|data| + 4);
        longer := longer + data;
        assert out + Hex4(|data| + 4) + data == out + (Hex4(|data| + 4) + data);
    }
  }

  lemma Hex4RoundTrip(n: nat)
    requires n < 0x1_0000
    ensures ParseUnsigned(Hex4(n), 16, 0x1_0000) == Some(n)
  {
    var a, b, c, d := n / 0x1000, n / 0x100 % 16, n / 16 % 16, n % 16;
    DigitRoundTrip(a);
    DigitRoundTrip(b);
    DigitRoundTrip(c);
    DigitRoundTrip(d);
    DigitsFour(HexDigit(a), HexDigit(b), HexDigit(c), HexDigit(d), a, b, c, d);
    FourDigits(n);
    assert Hex4(n)[0] == HexDigit(a);
  }

  lemma FourDigits(n: nat)
    ensures n == 16 * (16 * (16 * (n / 0x1000) + n / 0x100 % 16) + n / 16 % 16) + n % 16
  {
    assert n / 0x100 == n / 16 / 16 && n / 0x1000 == n / 0x100 / 16;
  }

  lemma DigitsFour(p: byte, q: byte, r: byte, s: byte, a: nat, b: nat, c: nat, d: nat)
    requires DigitOf(p, 16) == Some(a) && DigitOf(q, 16) == Some(b)
    requires DigitOf(r, 16) == Some(c) && DigitOf(s, 16) == Some(d)
    ensures DigitsValue([p, q, r, s], 16) == Some(16 * (16 * (16 * a + b) + c) + d)
  {
    var none: seq<byte> := [];
    assert [p][..0] == none;
    assert [p, q][..1] == [p];
    assert [p, q, r][..2] == [p, q];
    assert [p, q, r, s][..3] == [p, q, r];
    assert DigitsValue([p], 16) == Some(16 * 0 + a);
    assert DigitsValue([p, q], 16) == Some(16 * a + b);
    assert DigitsValue([p, q, r], 16) == Some(16 * (16 * a + b) + c);
  }

  /** A packet is read back as it was written, wherever it stands. */
  lemma PacketRoundTrip(packet: Packet, data: seq<byte>, pos: nat)
    requires Writable(packet) && StandsAt(data, pos, Encoded(packet))
    ensures PacketAt(data, pos) == Success(Parsed(packet, pos + |Encoded(packet)|))
  {
    var length := match packet case Flush => 0 case Delimiter => 1 case ResponseEnd => 2 case Data(d) => |d| + 4;
    var payload := if packet.Data? then packet.data else [];
    assert Encoded(packet) == Hex4(length) + payload;
    StandsApart(data, pos, Hex4(length), payload);
    assert data[pos..pos + 4] == Hex4(length);
    Hex4RoundTrip(length);
    assert data[pos + 4..pos + 4 + |payload|] == payload;
  }

  ghost predicate AllWritable(packets: seq<Packet>) {
    forall i :: 0 <= i < |packets| ==> Writable(packets[i])
  }

  ghost function EncodedAll(packets: seq<Packet>): seq<byte>
    requires AllWritable(packets)
  {
    if packets == [] then [] else Encoded(packets[0]) + EncodedAll(packets[1..])
  }

  /** Whether reading from `pos` gives `packets`, one after the other, and ends at `next`. */
  ghost predicate Reads(data: seq<byte>, pos: nat, packets: seq<Packet>, next: nat)
    decreases |packets|
  {
    if packets == [] then next == pos
    else
      var first := PacketAt(data, pos);
      first.Success? && first.value.value == packets[0] && Reads(data, first.value.next, packets[1..], next)
  }

  lemma ReadsOne(data: seq<byte>, pos: nat, packet: Packet, middle: nat, rest: seq<Packet>, next: nat)
    requires PacketAt(data, pos) == Success(Parsed(packet, middle)) && Reads(data, middle, rest, next)
    ensures Reads(data, pos, [packet] + rest, next)
  {
    assert ([packet] + rest)[1..] == rest;
  }

  lemma PacketThenRest(packet: Packet, code: seq<byte>, data: seq<byte>, pos: nat) returns (next: nat)
    requires Writable(packet) && StandsAt(data, pos, Encoded(packet) + code)
    ensures next == pos + |Encoded(packet)| && PacketAt(data, pos) == Success(Parsed(packet, next))
    ensures StandsAt(data, next, code)
  {
    next := pos + |Encoded(packet)|;
    assert StandsAt(data, pos, Encoded(packet)) && StandsAt(data, next, code) by {
      StandsApart(data, pos, Encoded(packet), code);
    }
    PacketRoundTrip(packet, data, pos);
  }

  /** The packets that were written, one after the other, are those that are read. */
  lemma {:induction false} PacketsRoundTrip(packets: seq<Packet>, data: seq<byte>, pos: nat) returns (next: nat)
    requires AllWritable(packets) && StandsAt(data, pos, EncodedAll(packets))
    ensures next == pos + |EncodedAll(packets)| && Reads(data, pos, packets, next)
    decreases |packets|
  {
    if packets == [] {
      next := pos;
    } else {
      var middle := PacketThenRest(packets[0], EncodedAll(packets[1..]), data, pos);
      next := PacketsRoundTrip(packets[1..], data, middle);
    }
  }

  lemma {:induction false} ReadsBoth(data: seq<byte>, pos: nat, a: seq<Packet>, middle: nat, b: seq<Packet>, next: nat)
    requires Reads(data, pos, a, middle) && Reads(data, middle, b, next)
    ensures Reads(data, pos, a + b, next)
    decreases |a|
  {
    if a == [] {
      assert a + b == b;
    } else {
      assert (a + b)[1..] == a[1..] + b;
      ReadsBoth(data, PacketAt(data, pos).value.next, a[1..], middle, b, next);
    }
  }

  lemma {:induction false} ReadsApart(data: seq<byte>, pos: nat, a: seq<Packet>, b: seq<Packet>, next: nat)
    returns (middle: nat)
    requires Reads(data, pos, a + b, next)
    ensures Reads(data, pos, a, middle) && Reads(data, middle, b, next)
    decreases |a|
  {
    if a == [] {
      assert a + b == b;
      middle := pos;
    } else {
      assert (a + b)[1..] == a[1..] + b;
      middle := ReadsApart(data, PacketAt(data, pos).value.next, a[1..], b, next);
    }
  }

  // ----- The answer to a fetch

  /** "packfile" */
  const PACKFILE: seq<byte> := [0x70, 0x61, 0x63, 0x6b, 0x66, 0x69, 0x6c, 0x65]

  /** A line of text without the line feed it may end with. */
  function NormalizeText(line: seq<byte>): seq<byte> {
    if line != [] && line[|line| - 1] == 0x0a then line[..|line| - 1] else line
  }

  /** The position after the line that starts the section of the pack. */
  function SectionsFrom(data: seq<byte>, pos: nat, atStart: bool): (r: Result<nat, Error>)
    ensures r.Success? ==> pos < r.value <= |data|
    decreases |data| - pos
  {
    var packet :- PacketAt(data, pos);
    match packet.value
    case Data(line) =>
      if atStart && NormalizeText(line) == PACKFILE then Success(packet.next)
      else SectionsFrom(data, packet.next, false)
    case Delimiter => if atStart then Failure(UnexpectedPacket) else SectionsFrom(data, packet.next, true)
    case _ => Failure(UnexpectedPacket)
  }

  /** The bytes of the pack from `pos` on. The first byte of each packet says what it carries: the
      pack, a line of progress, or an error. */
  function PackFrom(data: seq<byte>, pos: nat): Result<seq<byte>, Error>
    decreases |data| - pos
  {
    var packet :- PacketAt(data, pos);
    match packet.value
    case Flush => Success([])
    case Data(line) =>
      if |line| > 1 && line[0] == 3 then Failure(ProtocolError)
      else
        var rest :- PackFrom(data, packet.next);
        Success((if |line| > 1 && line[0] == 1 then line[1..] else []) + rest)
    case _ => Failure(UnexpectedPacket)
  }

  function Answer(data: seq<byte>): Result<seq<byte>, Error> {
    var start :- SectionsFrom(data, 0, true);
    PackFrom(data, start)
  }

  /** The pack in the answer of a server to a fetch. */
  method ReadAnswer(response: seq<byte>) returns (r: Result<seq<byte>, Error>)
    ensures r == Answer(response)
  {
    var cursor := new Cursor(response, 0);
    var atSectionStart := true;
    while true
      invariant cursor.data == response && cursor.pos <= |response|
      invariant SectionsFrom(response, 0, true) == SectionsFrom(response, cursor.pos, atSectionStart)
      decreases |response| - cursor.pos
    {
      var packet :- ReadPacket(cursor);
      if packet.Data? && atSectionStart && NormalizeText(packet.data) == PACKFILE {
        break;
      } else if packet.Data? {
        atSectionStart := false;
      } else if packet.Delimiter? && !atSectionStart {
        atSectionStart := true;
      } else {
        return Failure(UnexpectedPacket);
      }
    }
    ghost var start := cursor.pos;
    var pack := [];
    PrependedNothing(PackFrom(response, start));
    while true
      invariant cursor.data == response && cursor.pos <= |response|
      invariant PackFrom(response, start) == Prepended(pack, PackFrom(response, cursor.pos))
      decreases |response| - cursor.pos
    {
      BandsStep(response, cursor.pos, pack);
      var packet :- ReadPacket(cursor);
      match packet {
        case Flush => return Success(pack);
        case Data(line) =>
          if |line| > 1 {
            if line[0] == 1 {
              pack := pack + line[1..];
            } else if line[0] == 3 {
              return Failure(ProtocolError);
            }
          }
        case _ => return Failure(UnexpectedPacket);
      }
    }
  }

  lemma BandsStep(data: seq<byte>, pos: nat, pack: seq<byte>)
    ensures var packet := PacketAt(data, pos);
            Prepended(pack, PackFrom(data, pos))
            == match packet
               case Failure(error) => Failure(error)
               case Success(Parsed(Flush, _)) => Success(pack)
               case Success(Parsed(Data(line), next)) =>
                 if |line| > 1 && line[0] == 3 then Failure(ProtocolError)
                 else Prepended(if |line| > 1 && line[0] == 1 then pack + line[1..] else pack, PackFrom(data, next))
               case _ => Failure(UnexpectedPacket)
  {
    var packet := PacketAt(data, pos);
    if packet.Success? && packet.value.value.Data? {
      var line, rest := packet.value.value.data, PackFrom(data, packet.value.next);
      if rest.Success? {
        var run: seq<byte> := if |line| > 1 && line[0] == 1 then line[1..] else [];
        assert pack + (run + rest.value) == pack + run + rest.value;
        assert pack + [] == pack;
      }
    } else if packet.Success? {
      assert pack + [] == pack;
    }
  }

  // ----- What an answer is

  /** A section before the pack's: at least one line, the first of which is not that of the pack's. A
      later line may say anything. */
  ghost predicate IsOtherSection(lines: seq<seq<byte>>) {
    lines != [] && !IsPackLine(lines[0])
  }

  /** The line "packfile", with the line feed it may end with or without. */
  ghost predicate IsPackLine(line: seq<byte>) {
    && 8 <= |line| <= 9 && line[..8] == [0x70, 0x61, 0x63, 0x6b, 0x66, 0x69, 0x6c, 0x65]
    && (|line| == 9 ==> line[8] == 0x0a)
  }

  lemma PackLineIsExact(line: seq<byte>)
    ensures NormalizeText(line) == PACKFILE <==> IsPackLine(line)
  {
    if IsPackLine(line) {
      assert |line| == 8 ==> line[..8] == line;
    }
    if NormalizeText(line) == PACKFILE {
      assert |line| == 9 ==> line[..8] == PACKFILE;
    }
  }

  ghost function Lines(lines: seq<seq<byte>>): seq<Packet> {
    if lines == [] then [] else [Data(lines[0])] + Lines(lines[1..])
  }

  ghost function Preamble(sections: seq<seq<seq<byte>>>): seq<Packet> {
    if sections == [] then [] else (Lines(sections[0]) + [Delimiter]) + Preamble(sections[1..])
  }

  /** A packet of the pack's section that is no error. */
  ghost predicate IsBand(line: seq<byte>) {
    |line| > 1 ==> line[0] != 3
  }

  /** The bytes of the pack in the packets of its section: those of the first band. */
  ghost function Carried(bands: seq<seq<byte>>): seq<byte> {
    if bands == [] then []
    else (if |bands[0]| > 1 && bands[0][0] == 1 then bands[0][1..] else []) + Carried(bands[1..])
  }

  /** Whether `data` is an answer that carries `pack`: other sections, then the pack's line, its
      packets, split anyhow and with others between, and a flush. */
  ghost predicate Carries(data: seq<byte>, sections: seq<seq<seq<byte>>>, line: seq<byte>, bands: seq<seq<byte>>,
                          next: nat, pack: seq<byte>)
  {
    && (forall i :: 0 <= i < |sections| ==> IsOtherSection(sections[i]))
    && IsPackLine(line)
    && (forall i :: 0 <= i < |bands| ==> IsBand(bands[i]))
    && pack == Carried(bands)
    && Reads(data, 0, Preamble(sections) + ([Data(line)] + (Lines(bands) + [Flush])), next)
  }

  lemma {:induction false} LinesAreSkipped(data: seq<byte>, pos: nat, lines: seq<seq<byte>>, next: nat)
    requires Reads(data, pos, Lines(lines), next)
    ensures SectionsFrom(data, pos, false) == SectionsFrom(data, next, false)
    decreases |lines|
  {
    if lines != [] {
      assert Lines(lines)[1..] == Lines(lines[1..]);
      LinesAreSkipped(data, PacketAt(data, pos).value.next, lines[1..], next);
    }
  }

  lemma SectionIsSkipped(data: seq<byte>, pos: nat, lines: seq<seq<byte>>, next: nat)
    requires IsOtherSection(lines) && Reads(data, pos, Lines(lines) + [Delimiter], next)
    ensures SectionsFrom(data, pos, true) == SectionsFrom(data, next, true)
  {
    PackLineIsExact(lines[0]);
    var end := ReadsApart(data, pos, Lines(lines), [Delimiter], next);
    assert Lines(lines)[1..] == Lines(lines[1..]);
    LinesAreSkipped(data, PacketAt(data, pos).value.next, lines[1..], end);
    assert [Delimiter][1..] == [];
  }

  lemma {:induction false} PreambleIsSkipped(data: seq<byte>, pos: nat, sections: seq<seq<seq<byte>>>, next: nat)
    requires forall i :: 0 <= i < |sections| ==> IsOtherSection(sections[i])
    requires Reads(data, pos, Preamble(sections), next)
    ensures SectionsFrom(data, pos, true) == SectionsFrom(data, next, true)
    decreases |sections|
  {
    if sections != [] {
      var middle := ReadsApart(data, pos, Lines(sections[0]) + [Delimiter], Preamble(sections[1..]), next);
      SectionIsSkipped(data, pos, sections[0], middle);
      PreambleIsSkipped(data, middle, sections[1..], next);
    }
  }

  lemma {:induction false} BandsAreCarried(data: seq<byte>, pos: nat, bands: seq<seq<byte>>, next: nat)
    requires forall i :: 0 <= i < |bands| ==> IsBand(bands[i])
    requires Reads(data, pos, Lines(bands) + [Flush], next)
    ensures PackFrom(data, pos) == Success(Carried(bands))
    decreases |bands|
  {
    if bands == [] {
      assert Lines(bands) + [Flush] == [Flush];
    } else {
      assert (Lines(bands) + [Flush])[1..] == Lines(bands[1..]) + [Flush];
      BandsAreCarried(data, PacketAt(data, pos).value.next, bands[1..], next);
    }
  }

  /** An answer that carries a pack is read as that pack, however it is split into packets, whatever
      is between them and whatever sections come before. */
  lemma CarriedIsRead(data: seq<byte>, sections: seq<seq<seq<byte>>>, line: seq<byte>, bands: seq<seq<byte>>,
                      next: nat, pack: seq<byte>)
    requires Carries(data, sections, line, bands, next, pack)
    ensures Answer(data) == Success(pack)
  {
    PackLineIsExact(line);
    var start := ReadsApart(data, 0, Preamble(sections), [Data(line)] + (Lines(bands) + [Flush]), next);
    PreambleIsSkipped(data, 0, sections, start);
    assert ([Data(line)] + (Lines(bands) + [Flush]))[1..] == Lines(bands) + [Flush];
    BandsAreCarried(data, PacketAt(data, start).value.next, bands, next);
  }

  /** The rest of a section that is not the pack's, the sections after it and the pack's line. */
  lemma {:induction false} SectionsAreRead(data: seq<byte>, pos: nat, atStart: bool)
    returns (lines: seq<seq<byte>>, sections: seq<seq<seq<byte>>>, start: nat, line: seq<byte>)
    requires SectionsFrom(data, pos, atStart).Success?
    ensures forall i :: 0 <= i < |sections| ==> IsOtherSection(sections[i])
    ensures if atStart then lines == [] && Reads(data, pos, Preamble(sections), start)
            else Reads(data, pos, (Lines(lines) + [Delimiter]) + Preamble(sections), start)
    ensures IsPackLine(line)
    ensures PacketAt(data, start) == Success(Parsed(Data(line), SectionsFrom(data, pos, atStart).value))
    decreases |data| - pos
  {
    var packet := PacketAt(data, pos).value;
    if packet.value.Delimiter? {
      lines, sections, start, line := SectionsAreRead(data, packet.next, true);
      ReadsOne(data, pos, Delimiter, packet.next, Preamble(sections), start);
      assert (Lines([]) + [Delimiter]) + Preamble(sections) == [Delimiter] + Preamble(sections);
    } else if atStart && NormalizeText(packet.value.data) == PACKFILE {
      PackLineIsExact(packet.value.data);
      lines, sections, start, line := [], [], pos, packet.value.data;
    } else {
      var rest;
      rest, sections, start, line := SectionsAreRead(data, packet.next, false);
      ReadsOne(data, pos, packet.value, packet.next, (Lines(rest) + [Delimiter]) + Preamble(sections), start);
      lines := LinesCons(packet.value.data, rest, Preamble(sections));
      if atStart {
        PackLineIsExact(packet.value.data);
        sections := PreambleCons(lines, sections);
        lines := [];
      }
    }
  }

  lemma LinesCons(first: seq<byte>, rest: seq<seq<byte>>, after: seq<Packet>) returns (lines: seq<seq<byte>>)
    ensures lines != [] && lines[0] == first
    ensures (Lines(lines) + [Delimiter]) + after == [Data(first)] + ((Lines(rest) + [Delimiter]) + after)
  {
    lines := [first] + rest;
    assert lines[1..] == rest;
  }

  lemma PreambleCons(lines: seq<seq<byte>>, rest: seq<seq<seq<byte>>>) returns (sections: seq<seq<seq<byte>>>)
    requires IsOtherSection(lines) && forall i :: 0 <= i < |rest| ==> IsOtherSection(rest[i])
    ensures forall i :: 0 <= i < |sections| ==> IsOtherSection(sections[i])
    ensures Preamble(sections) == (Lines(lines) + [Delimiter]) + Preamble(rest)
  {
    sections := [lines] + rest;
    assert sections[1..] == rest;
  }

  lemma {:induction false} BandsAreRead(data: seq<byte>, pos: nat) returns (bands: seq<seq<byte>>, next: nat)
    requires PackFrom(data, pos).Success?
    ensures forall i :: 0 <= i < |bands| ==> IsBand(bands[i])
    ensures PackFrom(data, pos).value == Carried(bands) && Reads(data, pos, Lines(bands) + [Flush], next)
    decreases |data| - pos
  {
    var packet := PacketAt(data, pos).value;
    if packet.value.Flush? {
      bands, next := [], packet.next;
      assert Lines(bands) + [Flush] == [Flush];
    } else {
      var rest;
      rest, next := BandsAreRead(data, packet.next);
      bands := [packet.value.data] + rest;
      assert bands[1..] == rest;
      ReadsOne(data, pos, packet.value, packet.next, Lines(rest) + [Flush], next);
      assert Lines(bands) + [Flush] == [packet.value] + (Lines(rest) + [Flush]);
    }
  }

  /** And nothing else is read as a pack. */
  lemma OnlyCarriedIsRead(data: seq<byte>)
    requires Answer(data).Success?
    ensures exists sections, line, bands, next :: Carries(data, sections, line, bands, next, Answer(data).value)
  {
    var lines, sections, start, line := SectionsAreRead(data, 0, true);
    var bands, next := BandsAreRead(data, PacketAt(data, start).value.next);
    var rest := [Data(line)] + (Lines(bands) + [Flush]);
    assert rest[1..] == Lines(bands) + [Flush];
    ReadsBoth(data, 0, Preamble(sections), start, rest, next);
    assert Carries(data, sections, line, bands, next, Answer(data).value);
  }
}
