/** The head of a pack, its deltas and its objects written whole, as bytes: what is read as each of them is
    what spells it. */
module PackCodes {
  import opened Bytes
  import opened Cursors
  import opened DeltaGraphs
  import opened Deltas
  import opened EntryHeaders
  import opened Packs
  import opened VarInts
  import opened Wrappers

  // ----- The head of a pack

  /** Four bytes, the highest first. */
  function FourBytes(n: nat): seq<byte>
    requires n < 0x1_0000_0000
  {
    [n / 0x100_0000, n / 0x1_0000 % 256, n / 0x100 % 256, n % 256]
  }

  /** "PACK", the version and the number of entries. */
  function PackHead(n: nat): seq<byte>
    requires n < 0x1_0000_0000
  {
    [0x50, 0x41, 0x43, 0x4b] + (FourBytes(2) + FourBytes(n))
  }

  lemma OneMoreByte(code: seq<byte>, last: byte)
    ensures BigEndian(code + [last]) == 256 * BigEndian(code) + last
  {
    assert (code + [last])[..|code|] == code;
  }

  lemma FourSpell(a: byte, b: byte, c: byte, d: byte)
    ensures BigEndian([a, b, c, d]) == 256 * (256 * (256 * a + b) + c) + d
  {
    var none: seq<byte> := [];
    assert BigEndian(none) == 0;
    OneMoreByte(none, a);
    OneMoreByte([a], b);
    OneMoreByte([a, b], c);
    OneMoreByte([a, b, c], d);
    assert none + [a] == [a] && [a] + [b] == [a, b] && [a, b] + [c] == [a, b, c];
    assert [a, b, c] + [d] == [a, b, c, d];
  }

  lemma HighAndLow(n: nat)
    ensures n == 256 * (256 * (256 * (n / 0x100_0000) + n / 0x1_0000 % 256) + n / 0x100 % 256) + n % 256
  {
    assert n / 0x1_0000 == n / 0x100 / 0x100 && n / 0x100_0000 == n / 0x1_0000 / 0x100;
  }

  lemma FourBytesSpell(n: nat)
    requires n < 0x1_0000_0000
    ensures BigEndian(FourBytes(n)) == n
  {
    FourSpell(n / 0x100_0000, n / 0x1_0000 % 256, n / 0x100 % 256, n % 256);
    HighAndLow(n);
  }

  lemma BytesOf(a: byte, b: byte, c: byte, d: byte)
    ensures var n := 256 * (256 * (256 * a + b) + c) + d;
            n < 0x1_0000_0000 && FourBytes(n) == [a, b, c, d]
  {
    var n := 256 * (256 * (256 * a + b) + c) + d;
    assert n / 0x100 == 256 * (256 * a + b) + c;
    assert n / 0x1_0000 == n / 0x100 / 0x100 == 256 * a + b;
    assert n / 0x100_0000 == n / 0x1_0000 / 0x100 == a;
  }

  lemma FourBytesAre(code: seq<byte>)
    requires |code| == 4
    ensures BigEndian(code) < 0x1_0000_0000 && FourBytes(BigEndian(code)) == code
  {
    assert code == [code[0], code[1], code[2], code[3]];
    FourSpell(code[0], code[1], code[2], code[3]);
    BytesOf(code[0], code[1], code[2], code[3]);
  }

  lemma HeadStands(data: seq<byte>, n: nat)
    requires n < 0x1_0000_0000 && |data| >= 12
    ensures StandsAt(data, 0, PackHead(n))
       <==> data[..4] == [0x50, 0x41, 0x43, 0x4b] && data[4..8] == FourBytes(2) && data[8..12] == FourBytes(n)
  {
    var head := PackHead(n);
    assert head[..4] == [0x50, 0x41, 0x43, 0x4b] && head[4..8] == FourBytes(2) && head[8..12] == FourBytes(n);
    if StandsAt(data, 0, head) {
      assert data[..12] == head;
      assert data[..12][..4] == data[..4] && data[..12][4..8] == data[4..8] && data[..12][8..12] == data[8..12];
    }
  }

  /** A pack announces a number of entries if and only if it starts with "PACK", version 2 and that number. */
  lemma AnnouncedIsExact(pack: Pack, n: nat)
    ensures pack.Announced() == Success(n) <==> n < 0x1_0000_0000 && StandsAt(pack.bytes, 0, PackHead(n))
  {
    FourBytesSpell(2);
    if |pack.bytes| >= 12 {
      FourBytesAre(pack.bytes[4..8]);
      FourBytesAre(pack.bytes[8..12]);
      if n < 0x1_0000_0000 {
        FourBytesSpell(n);
        HeadStands(pack.bytes, n);
      }
    }
  }

  // ----- Deltas

  /** A part of an object: bytes of its own, or a run of what it is built on, with the size field and the
      mask that it is spelled with. */
  datatype Edit = Bring(run: seq<byte>) | Keep(from: nat, length: nat, field: nat, mask: nat)

  /** Whether the part can be written, and made of `base`. A size field of zero says 64 KiB. */
  predicate IsEdit(edit: Edit, base: seq<byte>) {
    match edit
    case Bring(run) => 0 < |run| < 128
    case Keep(from, length, field, mask) =>
      && from + length <= |base| && Valid(Copy(from, field, mask))
      && if field == 0 then length == 65536 else length == field
  }

  predicate AreEdits(edits: seq<Edit>, base: seq<byte>) {
    forall i :: 0 <= i < |edits| ==> IsEdit(edits[i], base)
  }

  /** What the parts make, one after the other. */
  function Made(edits: seq<Edit>, base: seq<byte>): seq<byte>
    requires AreEdits(edits, base)
  {
    if edits == [] then []
    else
      var first := match edits[0] case Bring(run) => run case Keep(from, length, _, _) => base[from..from + length];
      first + Made(edits[1..], base)
  }

  function Instructions(edits: seq<Edit>): (insts: seq<Instruction>)
    ensures |insts| == |edits|
  {
    seq(|edits|, i requires 0 <= i < |edits| =>
          match edits[i] case Bring(run) => Insert(run) case Keep(from, _, field, mask) => Copy(from, field, mask))
  }

  /** A delta as it is written: the length of its base, that of what it makes, and its instructions. */
  ghost function DeltaCode(edits: seq<Edit>, base: seq<byte>): seq<byte>
    requires AreEdits(edits, base)
  {
    EncodeLeb128(|base|) + (EncodeLeb128(|Made(edits, base)|) + Codes(Instructions(edits)))
  }

  lemma {:induction false} RunsAreMade(edits: seq<Edit>, base: seq<byte>)
    requires AreEdits(edits, base)
    ensures AllValid(Instructions(edits)) && AllInRange(base, Instructions(edits))
    ensures Runs(base, Instructions(edits)) == Made(edits, base)
    decreases |edits|
  {
    if edits != [] {
      RunsAreMade(edits[1..], base);
      assert Instructions(edits)[1..] == Instructions(edits[1..]);
      assert IsEdit(edits[0], base);
    }
  }

  /** A delta is applied as it was written, to what it was written for. */
  lemma DeltaApplies(pack: Pack, edits: seq<Edit>, below: Object, code: seq<byte>)
    requires AreEdits(edits, below.data) && code == DeltaCode(edits, below.data)
    requires |below.data| <= 0x1000_0000 && |Made(edits, below.data)| <= 0x1000_0000
    ensures pack.ApplyTo(below, code) == Success(Object(below.kind, Made(edits, below.data)))
  {
    var made := Made(edits, below.data);
    RunsAreMade(edits, below.data);
    var at, start := LengthsAreRead(|below.data|, |made|, Codes(Instructions(edits)), code);
    PartsApply(pack, below, edits, code, |below.data|, at, start, made);
  }

  lemma PartsApply(pack: Pack, base: Object, edits: seq<Edit>, code: seq<byte>, n: nat, at: nat, start: nat,
                   made: seq<byte>)
    requires AreEdits(edits, base.data) && made == Made(edits, base.data) && |made| <= 0x1000_0000
    requires AllValid(Instructions(edits))
    requires Leb128At(code, 0) == Success(Parsed(n, at)) && Leb128At(code, at) == Success(Parsed(|made|, start))
    requires StandsAt(code, start, Codes(Instructions(edits))) && start + |Codes(Instructions(edits))| == |code|
    ensures pack.ApplyTo(base, code) == Success(Object(base.kind, made))
  {
    RunsAreMade(edits, base.data);
    ExpandsToRuns(base.data, Instructions(edits), code, start, |made|);
  }

  lemma LengthsAreRead(first: nat, second: nat, rest: seq<byte>, code: seq<byte>) returns (at: nat, start: nat)
    requires first <= 0x1000_0000 && second <= 0x1000_0000
    requires code == EncodeLeb128(first) + (EncodeLeb128(second) + rest)
    ensures Leb128At(code, 0) == Success(Parsed(first, at)) && Leb128At(code, at) == Success(Parsed(second, start))
    ensures StandsAt(code, start, rest) && start + |rest| == |code|
  {
    at, start := |EncodeLeb128(first)|, |EncodeLeb128(first)| + |EncodeLeb128(second)|;
    LengthsStand(code, EncodeLeb128(first), EncodeLeb128(second), rest);
    Leb128RoundTrip(first, code, 0);
    Leb128RoundTrip(second, code, at);
  }

  lemma LengthsStand(code: seq<byte>, first: seq<byte>, second: seq<byte>, rest: seq<byte>)
    requires code == first + (second + rest)
    ensures StandsAt(code, 0, first) && StandsAt(code, |first|, second) && StandsAt(code, |first| + |second|, rest)
  {
    assert StandsAt(code, 0, first + (second + rest));
    StandsApart(code, 0, first, second + rest);
    StandsApart(code, |first|, second, rest);
  }

  // ----- Nothing else is applied as a delta

  /** Whether `code` is a LEB128 of `n`, in as many bytes as it may have. */
  ghost predicate IsLength(code: seq<byte>, n: nat) {
    SelfTerminated(code) && |code| <= 10 && Leb128Value(code) == n < U64_LIMIT
  }

  /** Whether `code` is a delta that makes `made`: two lengths, of which the first is not looked at, and the
      instructions of the parts of `made`. */
  ghost predicate IsDelta(code: seq<byte>, first: seq<byte>, second: seq<byte>, edits: seq<Edit>, base: seq<byte>,
                          made: seq<byte>)
  {
    && AreEdits(edits, base) && made == Made(edits, base) && |made| <= 0x1000_0000
    && AllValid(Instructions(edits)) && code == first + (second + Codes(Instructions(edits)))
    && IsLength(second, |made|) && exists n :: IsLength(first, n)
  }

  /** A delta makes an object if and only if it is one that says so: of the same kind, of the parts that its
      instructions are. */
  lemma DeltaIsExact(pack: Pack, base: Object, code: seq<byte>, obj: Object)
    ensures pack.ApplyTo(base, code) == Success(obj)
       <==> obj.kind == base.kind
            && exists first, second, edits :: IsDelta(code, first, second, edits, base.data, obj.data)
  {
    if pack.ApplyTo(base, code) == Success(obj) {
      var first, second, edits := DeltaIsWritten(pack, base, code, obj);
    }
    if obj.kind == base.kind {
      if first, second, edits :| IsDelta(code, first, second, edits, base.data, obj.data) {
        WrittenApplies(pack, base, code, obj, first, second, edits);
      }
    }
  }

  lemma WrittenApplies(pack: Pack, base: Object, code: seq<byte>, obj: Object, first: seq<byte>, second: seq<byte>,
                       edits: seq<Edit>)
    requires IsDelta(code, first, second, edits, base.data, obj.data) && obj.kind == base.kind
    ensures pack.ApplyTo(base, code) == Success(obj)
  {
    var n :| IsLength(first, n);
    var at, start := LengthsAreSpelled(first, second, n, |obj.data|, Codes(Instructions(edits)), code);
    PartsApply(pack, base, edits, code, n, at, start, obj.data);
  }

  lemma LengthsAreSpelled(first: seq<byte>, second: seq<byte>, n: nat, m: nat, rest: seq<byte>, code: seq<byte>)
    returns (at: nat, start: nat)
    requires IsLength(first, n) && IsLength(second, m) && code == first + (second + rest)
    ensures Leb128At(code, 0) == Success(Parsed(n, at)) && Leb128At(code, at) == Success(Parsed(m, start))
    ensures StandsAt(code, start, rest) && start + |rest| == |code|
  {
    LengthsStand(code, first, second, rest);
    at, start := |first|, |first| + |second|;
    Leb128IsExact(code, 0, first);
    Leb128IsExact(code, at, second);
  }

  function EditsOf(insts: seq<Instruction>): (edits: seq<Edit>)
    ensures |edits| == |insts|
  {
    seq(|insts|, i requires 0 <= i < |insts| =>
          match insts[i]
          case Insert(run) => Bring(run)
          case Copy(offset, field, mask) => Keep(offset, if field == 0 then 65536 else field, field, mask))
  }

  lemma EditsAre(insts: seq<Instruction>, base: seq<byte>)
    requires AllValid(insts) && AllInRange(base, insts)
    ensures AreEdits(EditsOf(insts), base) && Instructions(EditsOf(insts)) == insts
    ensures Made(EditsOf(insts), base) == Runs(base, insts)
  {
    var edits := EditsOf(insts);
    forall i | 0 <= i < |insts|
      ensures IsEdit(edits[i], base) && Instructions(edits)[i] == insts[i]
    {
      assert Valid(insts[i]) && insts[i].InRange(base);
    }
    RunsAreMade(edits, base);
  }

  lemma LengthIsWritten(code: seq<byte>, pos: nat, n: nat, next: nat)
    requires Leb128At(code, pos) == Success(Parsed(n, next))
    ensures IsLength(code[pos..next], n)
  {
    Leb128Ends(code, pos, 0);
    Leb128IsExact(code, pos, code[pos..next]);
  }

  lemma AppliedParts(pack: Pack, base: Object, code: seq<byte>, obj: Object)
    returns (n: nat, m: nat, at: nat, start: nat)
    requires pack.ApplyTo(base, code) == Success(obj)
    ensures Leb128At(code, 0) == Success(Parsed(n, at)) && Leb128At(code, at) == Success(Parsed(m, start))
    ensures at <= start <= |code| && m <= 0x1000_0000 && obj.kind == base.kind
    ensures ExpandFrom(base.data, code, start, [], m) == Success(obj.data)
  {
    n, at := Leb128At(code, 0).value.value, Leb128At(code, 0).value.next;
    m, start := Leb128At(code, at).value.value, Leb128At(code, at).value.next;
  }

  lemma DeltaIsWritten(pack: Pack, base: Object, code: seq<byte>, obj: Object)
    returns (first: seq<byte>, second: seq<byte>, edits: seq<Edit>)
    requires pack.ApplyTo(base, code) == Success(obj)
    ensures IsDelta(code, first, second, edits, base.data, obj.data)
  {
    var n, m, at, start := AppliedParts(pack, base, code, obj);
    first, second := code[0..at], code[at..start];
    LengthIsWritten(code, 0, n, at);
    LengthIsWritten(code, at, m, start);
    edits := PartsAreWritten(base.data, code, start, m, obj.data);
    InThree(code, at, start);
  }

  lemma InThree(code: seq<byte>, at: nat, start: nat)
    requires at <= start <= |code|
    ensures code == code[0..at] + (code[at..start] + code[start..])
  {
  }

  lemma PartsAreWritten(base: seq<byte>, code: seq<byte>, start: nat, limit: nat, made: seq<byte>)
    returns (edits: seq<Edit>)
    requires start <= |code| && ExpandFrom(base, code, start, [], limit) == Success(made)
    ensures AreEdits(edits, base) && made == Made(edits, base) && |made| == limit
    ensures AllValid(Instructions(edits)) && code[start..] == Codes(Instructions(edits))
  {
    var insts := OnlyInstructionsExpand(base, code, start, [], limit);
    OutcomeFromNothing(base, insts, limit);
    EditsAre(insts, base);
    edits := EditsOf(insts);
  }

  // ----- Objects written whole

  /** Whether an object stands at `pos`, up to `next`: its kind, its length, at most 256 MiB, and a stream that
      inflates to it, cut one byte later. */
  ghost predicate IsWholeAt(pack: Pack, pos: nat, obj: Object, next: nat, code: seq<byte>, start: nat) {
    && IsHeader(pack.format, pack.bytes, pos, code, Undeltified(obj.kind, |obj.data|), start)
    && start <= next && |obj.data| <= 0x1000_0000
    && pack.zlib(pack.bytes[start..], |obj.data| + 1) == Some((obj.data, next - start))
  }

  /** It is read as written whole, and the position after it, if and only if it does. */
  lemma WholeIsExact(pack: Pack, pos: nat, obj: Object, next: nat)
    ensures pack.LinkAt(pos) == Whole(obj) && pack.After(pos) == Success(next)
       <==> exists code, start :: IsWholeAt(pack, pos, obj, next, code, start)
  {
    if pack.LinkAt(pos) == Whole(obj) && pack.After(pos) == Success(next) {
      var code, start := WholeIsWritten(pack, pos, obj, next);
    }
    if code, start :| IsWholeAt(pack, pos, obj, next, code, start) {
      var header := Undeltified(obj.kind, |obj.data|);
      HeaderIsRead(pack.format, pack.bytes, pos, code, header, start);
      WholeIsRead(pack, pos, obj, next, header, start);
    }
  }

  lemma WholeIsWritten(pack: Pack, pos: nat, obj: Object, next: nat) returns (code: seq<byte>, start: nat)
    requires pack.LinkAt(pos) == Whole(obj) && pack.After(pos) == Success(next)
    ensures IsWholeAt(pack, pos, obj, next, code, start)
  {
    var header := HeaderAt(pack.format, pack.bytes, pos).value;
    start := header.next;
    code := HeaderIsWritten(pack.format, pack.bytes, pos, header.value, start);
  }

  lemma WholeIsRead(pack: Pack, pos: nat, obj: Object, next: nat, header: EntryHeader, start: nat)
    requires header == Undeltified(obj.kind, |obj.data|)
    requires HeaderAt(pack.format, pack.bytes, pos) == Success(Parsed(header, start))
    requires start <= next && |obj.data| <= 0x1000_0000
    requires pack.zlib(pack.bytes[start..], |obj.data| + 1) == Some((obj.data, next - start))
    ensures pack.LinkAt(pos) == Whole(obj) && pack.After(pos) == Success(next)
  {
  }
}
