/** The bytes of a pack, and the graph of deltas they spell: gitformat-pack. */
module Packs {
  import opened Bytes
  import opened Cursors
  import opened DeltaGraphs
  import opened Deltas
  import opened EntryHeaders
  import opened Wrappers

  /** No object is larger than this, unpacked: 256 MiB. */
  const MAX_UNPACKED: nat := 0x1000_0000

  /** A pack, the zlib decoder it is read with and the hash its objects are named by. `zlib`
      answers what a stream inflates to, cut after the given number of bytes, and how many bytes
      of its input it took. Both are functions of their input, and nothing else is known of them. */
  datatype Pack = Pack(
    format: Format,
    bytes: seq<byte>,
    zlib: (seq<byte>, nat) -> Option<(seq<byte>, nat)>,
    hash: (ObjectType, seq<byte>) -> Oid
  ) {

    function IdOf(obj: Object): Oid {
      hash(obj.kind, obj.data)
    }

    /** The `size` bytes the stream at `pos` inflates to, and the position after it. One byte more
        than announced is asked for, to tell a longer object from this one. */
    function Inflate(pos: nat, size: nat): (r: Result<Parsed<seq<byte>>, Error>)
      ensures r.Failure? ==> !r.error.IncompletePack?
    {
      if size > MAX_UNPACKED then Failure(ObjectTooLarge)
      else if pos > |bytes| then Failure(InvalidObject)
      else match zlib(bytes[pos..], size + 1)
        case None => Failure(InvalidObject)
        case Some((data, consumed)) =>
          if |data| != size then Failure(InvalidObject) else Success(Parsed(data, pos + consumed))
    }

    /** What is written at `offset`. */
    function LinkAt(offset: nat): (link: Link)
      ensures link != Broken(IncompletePack)
    {
      match HeaderAt(format, bytes, offset)
      case Failure(error) => Broken(error)
      case Success(Parsed(Undeltified(kind, size), next)) => WholeOf(kind, Inflate(next, size))
      case Success(Parsed(OfsDelta(distance, _), _)) => Back(distance)
      case Success(Parsed(RefDelta(base, _), _)) => Named(base)
    }

    function WholeOf(kind: ObjectType, data: Result<Parsed<seq<byte>>, Error>): (link: Link)
      requires data != Failure(IncompletePack)
      ensures link != Broken(IncompletePack)
    {
      match data
      case Failure(error) => Broken(error)
      case Success(parsed) => Whole(Object(kind, parsed.value))
    }

    /** The object the delta at `offset` makes of `base`. The length the delta says its base has
        is read and not looked at. */
    function Apply(offset: nat, base: Object): (r: Result<Object, Error>)
      ensures r.Failure? ==> !r.error.IncompletePack?
    {
      var header :- HeaderAt(format, bytes, offset);
      var delta :- Inflate(header.next, header.value.size);
      ApplyTo(base, delta.value)
    }

    function ApplyTo(base: Object, delta: seq<byte>): (r: Result<Object, Error>)
      ensures r.Failure? ==> !r.error.IncompletePack?
    {
      var baseLength :- Leb128At(delta, 0);
      var length :- Leb128At(delta, baseLength.next);
      if length.value > MAX_UNPACKED then Failure(ObjectTooLarge)
      else
        var data :- ExpandFrom(base.data, delta, length.next, [], length.value);
        Success(Object(base.kind, data))
    }

    /** Where the entry at `pos` ends. */
    function After(pos: nat): (r: Result<nat, Error>)
      ensures r.Failure? ==> !r.error.IncompletePack?
    {
      var header :- HeaderAt(format, bytes, pos);
      var data :- Inflate(header.next, header.value.size);
      Success(data.next)
    }

    /** How many entries the header of the pack announces. */
    function Announced(): (r: Result<nat, Error>)
      ensures r.Failure? ==> !r.error.IncompletePack?
    {
      if |bytes| < 4 || bytes[..4] != [0x50, 0x41, 0x43, 0x4b] then Failure(InvalidHeader)
      else if |bytes| < 8 then Failure(InvalidHeader)
      else if BigEndian(bytes[4..8]) != 2 then Failure(UnsupportedVersion)
      else if |bytes| < 12 then Failure(InvalidHeader)
      else Success(BigEndian(bytes[8..12]))
    }

    /** The graph the pack spells. */
    ghost function Spelled(): Graph {
      Graph(
        Announced(),
        (offset: nat) => After(offset),
        (offset: nat) => LinkAt(offset),
        (offset: nat, base: Object) => Apply(offset, base),
        (obj: Object) => IdOf(obj))
    }

    /** Whether `graph` is the one the pack spells, point by point. */
    ghost predicate Spells(graph: Graph) {
      && (Announced() == graph.announced)
      && (forall offset {:trigger After(offset)} :: After(offset) == graph.next(offset))
      && (forall offset {:trigger LinkAt(offset)} :: LinkAt(offset) == graph.link(offset))
      && (forall offset, base {:trigger Apply(offset, base)} :: Apply(offset, base) == graph.apply(offset, base))
      && (forall obj {:trigger IdOf(obj)} :: IdOf(obj) == graph.id(obj))
    }

    lemma SpellsWhatIsSpelled()
      ensures Spells(Spelled()) && Spelled().LeavesIncompleteToTheWorklist()
    {
      var graph := Spelled();
      forall offset
        ensures graph.link(offset) != Broken(IncompletePack) && graph.next(offset) != Failure(IncompletePack)
      {
        assert graph.link(offset) == LinkAt(offset) && graph.next(offset) == After(offset);
      }
      forall offset, base
        ensures graph.apply(offset, base) != Failure(IncompletePack)
      {
        assert graph.apply(offset, base) == Apply(offset, base);
      }
    }
  }

  /** Four bytes as the number they spell, the highest first. */
  function BigEndian(code: seq<byte>): nat {
    if code == [] then 0 else 256 * BigEndian(code[..|code| - 1]) + code[|code| - 1]
  }

  method ReadU32(cursor: Cursor) returns (r: Result<nat, Error>)
    modifies cursor
    ensures r.Failure? <==> old(cursor.pos) + 4 > |cursor.data|
    ensures r.Success? ==>
              cursor.pos == old(cursor.pos) + 4 && r.value == BigEndian(cursor.data[old(cursor.pos)..cursor.pos])
  {
    var code :- cursor.Take(4);
    return Success(BigEndian(code));
  }

  /** The header of a pack: its signature, its version and how many entries it has. */
  method ReadAnnounced(pack: Pack, ghost graph: Graph, cursor: Cursor) returns (r: Result<nat, Error>)
    requires pack.Spells(graph) && cursor.data == pack.bytes && cursor.pos == 0
    modifies cursor
    ensures r == graph.announced
    ensures r.Success? ==> cursor.pos == HEADER_LENGTH
  {
    var magic := cursor.Take(4);
    if magic.Failure? || magic.value != [0x50, 0x41, 0x43, 0x4b] {
      return Failure(InvalidHeader);
    }
    var version := ReadU32(cursor);
    if version.Failure? {
      return Failure(InvalidHeader);
    }
    if version.value != 2 {
      return Failure(UnsupportedVersion);
    }
    r := ReadU32(cursor);
    if r.Failure? {
      return Failure(InvalidHeader);
    }
  }

  /** What is written at `offset`, the object inflated when it is one written whole. */
  method ReadLink(pack: Pack, ghost graph: Graph, offset: nat) returns (link: Link)
    requires pack.Spells(graph)
    ensures link == graph.link(offset)
    ensures !link.Broken? ==> offset < |pack.bytes|
  {
    assert pack.LinkAt(offset) == graph.link(offset);
    var cursor := new Cursor(pack.bytes, offset);
    var header := ReadHeader(pack.format, cursor);
    if header.Failure? {
      return Broken(header.error);
    }
    match header.value {
      case OfsDelta(distance, _) => return Back(distance);
      case RefDelta(base, _) => return Named(base);
      case Undeltified(kind, size) =>
        var data := pack.Inflate(cursor.pos, size);
        return if data.Failure? then Broken(data.error) else Whole(Object(kind, data.value.value));
    }
  }

  /** What is written where the cursor is, which goes to the next entry. */
  method ReadEntry(pack: Pack, ghost graph: Graph, cursor: Cursor) returns (r: Result<Link, Error>)
    requires pack.Spells(graph) && cursor.data == pack.bytes
    modifies cursor
    ensures r.Failure? ==> graph.next(old(cursor.pos)) == Failure(r.error)
    ensures r.Success? ==> graph.next(old(cursor.pos)) == Success(cursor.pos)
    ensures r.Success? ==> r.value == graph.link(old(cursor.pos)) && !r.value.Broken?
  {
    assert pack.LinkAt(cursor.pos) == graph.link(cursor.pos) && pack.After(cursor.pos) == graph.next(cursor.pos);
    var header :- ReadHeader(pack.format, cursor);
    var data :- pack.Inflate(cursor.pos, header.size);
    cursor.pos := data.next;
    match header {
      case OfsDelta(distance, _) => return Success(Back(distance));
      case RefDelta(base, _) => return Success(Named(base));
      case Undeltified(kind, _) => return Success(Whole(Object(kind, data.value)));
    }
  }

  /** Applies the delta at `offset` to `base`. */
  method ApplyDelta(pack: Pack, ghost graph: Graph, offset: nat, base: Object) returns (r: Result<Object, Error>)
    requires pack.Spells(graph)
    ensures r == graph.apply(offset, base)
  {
    assert pack.Apply(offset, base) == graph.apply(offset, base);
    var cursor := new Cursor(pack.bytes, offset);
    var header :- ReadHeader(pack.format, cursor);
    var inflated :- pack.Inflate(cursor.pos, header.size);
    r := ApplyInflated(pack, base, inflated.value);
  }

  method ApplyInflated(pack: Pack, base: Object, inflated: seq<byte>) returns (r: Result<Object, Error>)
    ensures r == pack.ApplyTo(base, inflated)
  {
    var delta := new Cursor(inflated, 0);
    var _ :- delta.ReadLeb128();
    var length :- delta.ReadLeb128();
    if length > MAX_UNPACKED {
      return Failure(ObjectTooLarge);
    }
    var data :- ExpandDelta(base.data, delta, length);
    return Success(Object(base.kind, data));
  }
}
