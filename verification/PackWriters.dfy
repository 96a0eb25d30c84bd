/** Packs as they are written: a list of entries, each an object written whole, a delta on an entry before
    it or a delta on the entry of some ID. What a pack is read as is what was written. */
module PackWriters {
  import opened Bytes
  import opened Cursors
  import opened DeltaGraphs
  import opened Deltas
  import opened EntryHeaders
  import opened PackCodes
  import opened Packs
  import opened Wrappers

  /** An entry, with the stream that its bytes are deflated to. A delta is on another entry, by where that
      one is or by its ID. */
  datatype Written =
    | WholeOne(kind: ObjectType, data: seq<byte>, stream: seq<byte>)
    | OnDistance(base: nat, edits: seq<Edit>, stream: seq<byte>)
    | OnName(base: nat, edits: seq<Edit>, stream: seq<byte>)

  /** The entries of a pack, none at the end of a chain of more than `depth` deltas, and where they start
      and the last one ends. */
  datatype Script = Script(
    format: Format,
    hash: (ObjectType, seq<byte>) -> Oid,
    entries: seq<Written>,
    offsets: seq<nat>,
    depth: nat
  ) {

    /** The object that an entry is, if its chain of deltas ends within `n` of them. */
    function ObjectIn(i: nat, n: nat): Option<Object>
      decreases n, i
    {
      if i >= |entries| then None
      else match entries[i]
        case WholeOne(kind, data, _) => Some(Object(kind, data))
        case _ =>
          if n == 0 then None
          else
            var below :- ObjectIn(entries[i].base, n - 1);
            if AreEdits(entries[i].edits, below.data)
            then Some(Object(below.kind, Made(entries[i].edits, below.data))) else None
    }

    /** Whether every entry is an object. */
    ghost predicate Valid() {
      && |entries| < 0x1_0000_0000 && |offsets| == |entries| + 1
      && forall i :: 0 <= i < |entries| ==> ObjectIn(i, depth).Some?
    }

    function ObjectAt(i: nat): Object
      requires Valid() && i < |entries|
    {
      ObjectIn(i, depth).value
    }

    lemma {:induction false} DeeperIsSame(i: nat, n: nat, m: nat)
      requires n <= m && ObjectIn(i, n).Some?
      ensures ObjectIn(i, m) == ObjectIn(i, n)
      decreases n
    {
      if !entries[i].WholeOne? {
        DeeperIsSame(entries[i].base, n - 1, m - 1);
      }
    }

    /** A delta makes its object of the one it is on, of the same kind. */
    lemma DeltaMakes(i: nat)
      requires Valid() && i < |entries| && !entries[i].WholeOne?
      ensures entries[i].base < |entries|
      ensures var below := ObjectAt(entries[i].base);
              && AreEdits(entries[i].edits, below.data)
              && ObjectAt(i) == Object(below.kind, Made(entries[i].edits, below.data))
    {
      assert ObjectIn(i, depth).Some?;
      DeeperIsSame(entries[i].base, depth - 1, depth);
    }

    /** What is deflated: the bytes of an object, or of a delta. */
    ghost function Payload(i: nat): seq<byte>
      requires Valid() && i < |entries|
    {
      match entries[i]
      case WholeOne(_, data, _) => data
      case _ => DeltaMakes(i); DeltaCode(entries[i].edits, ObjectAt(entries[i].base).data)
    }

    /** The ID of what a delta is on. */
    ghost function BaseName(i: nat): Oid
      requires Valid() && i < |entries| && !entries[i].WholeOne?
    {
      DeltaMakes(i);
      var below := ObjectAt(entries[i].base);
      hash(below.kind, below.data)
    }

    /** How far back what a delta is on starts. */
    function Distance(i: nat): nat
      requires Valid() && i < |entries| && !entries[i].WholeOne?
    {
      DeltaMakes(i);
      var base := offsets[entries[i].base];
      if base <= offsets[i] then offsets[i] - base else 0
    }

    ghost function HeaderOf(i: nat): EntryHeader
      requires Valid() && i < |entries|
    {
      match entries[i]
      case WholeOne(kind, _, _) => Undeltified(kind, |Payload(i)|)
      case OnDistance(_, _, _) => OfsDelta(Distance(i), |Payload(i)|)
      case OnName(_, _, _) => RefDelta(BaseName(i), |Payload(i)|)
    }

    /** Whether an object and a delta are at most 256 MiB long, an ID is one of the format, and a distance
        leads back, no further than 64 bits say. */
    ghost predicate Fits(i: nat)
      requires Valid() && i < |entries|
    {
      && |Payload(i)| <= 0x1000_0000 && |ObjectAt(i).data| <= 0x1000_0000
      && (entries[i].OnName? ==> |BaseName(i).bytes| == if format.Sha1? then 20 else 32)
      && (entries[i].OnDistance? ==>
            && Distance(i) < 0x1_0000_0000_0000_0000
            && entries[i].base < |entries| && offsets[i] == offsets[entries[i].base] + Distance(i))
    }

    /** Whether `zlib` undoes the stream of an entry, whatever follows it. */
    ghost predicate Inflates(zlib: (seq<byte>, nat) -> Option<(seq<byte>, nat)>, i: nat)
      requires Valid() && i < |entries|
    {
      forall more :: zlib(entries[i].stream + more, |Payload(i)| + 1) == Some((Payload(i), |entries[i].stream|))
    }

    /** Whether an entry is written at its offset, up to the next one: its header and its stream. */
    ghost predicate Stands(pack: Pack, i: nat)
      requires Valid() && i < |entries|
    {
      var head := EncodeHeader(HeaderOf(i));
      && StandsAt(pack.bytes, offsets[i], head) && StandsAt(pack.bytes, offsets[i] + |head|, entries[i].stream)
      && offsets[i + 1] == offsets[i] + |head| + |entries[i].stream|
    }

    /** Whether the pack is "PACK", the version, the number of entries, and then the entries, one after the
        other, with anything after them. */
    ghost predicate IsWritten(pack: Pack) {
      && Valid() && pack.format == format && pack.hash == hash
      && StandsAt(pack.bytes, 0, PackHead(|entries|)) && offsets[0] == 12
      && forall i :: 0 <= i < |entries| ==> Fits(i) && Inflates(pack.zlib, i) && Stands(pack, i)
    }

    // ----- The entries are where they were written

    lemma IsWritable(i: nat)
      requires Valid() && i < |entries| && Fits(i)
      ensures Writable(format, HeaderOf(i))
    {
    }

    lemma HeaderIsRead(pack: Pack, i: nat) returns (header: EntryHeader, start: nat)
      requires IsWritten(pack) && i < |entries|
      ensures header == HeaderOf(i) && header.size == |Payload(i)|
      ensures HeaderAt(pack.format, pack.bytes, offsets[i]) == Success(Parsed(header, start))
      ensures StandsAt(pack.bytes, start, entries[i].stream) && offsets[i + 1] == start + |entries[i].stream|
    {
      assert Fits(i) && Stands(pack, i);
      IsWritable(i);
      header := HeaderOf(i);
      var head := EncodeHeader(header);
      start := offsets[i] + |head|;
      HeaderStands(pack.format, header, head, pack.bytes, offsets[i], start);
    }

    lemma StreamIsRead(pack: Pack, i: nat, start: nat) returns (payload: seq<byte>, end: nat)
      requires IsWritten(pack) && i < |entries| && StandsAt(pack.bytes, start, entries[i].stream)
      ensures payload == Payload(i) && end == start + |entries[i].stream|
      ensures pack.Inflate(start, |payload|) == Success(Parsed(payload, end))
    {
      assert Fits(i) && Inflates(pack.zlib, i);
      payload, end := Payload(i), start + |entries[i].stream|;
      StreamInflates(pack, entries[i].stream, payload, start, end);
    }

    /** An entry is read up to where the next one starts. */
    lemma EntryEnds(pack: Pack, i: nat)
      requires IsWritten(pack) && i < |entries|
      ensures pack.After(offsets[i]) == Success(offsets[i + 1])
    {
      var header, start := HeaderIsRead(pack, i);
      var payload, end := StreamIsRead(pack, i, start);
      Ends(pack, offsets[i], header, start, payload, end);
      assert end == offsets[i + 1];
    }

    ghost function LinkOf(i: nat): Link
      requires Valid() && i < |entries|
    {
      match entries[i]
      case WholeOne(kind, data, _) => Whole(Object(kind, data))
      case OnDistance(_, _, _) => Back(Distance(i))
      case OnName(_, _, _) => Named(BaseName(i))
    }

    lemma EntryIsRead(pack: Pack, i: nat)
      requires IsWritten(pack) && i < |entries|
      ensures pack.LinkAt(offsets[i]) == LinkOf(i)
    {
      var header, start := HeaderIsRead(pack, i);
      if entries[i].WholeOne? {
        var data, end := StreamIsRead(pack, i, start);
      }
    }

    /** A delta makes its object of the one that it is on. */
    lemma DeltaIsRead(pack: Pack, i: nat)
      requires IsWritten(pack) && i < |entries| && !entries[i].WholeOne?
      ensures entries[i].base < |entries|
      ensures pack.Apply(offsets[i], ObjectAt(entries[i].base)) == Success(ObjectAt(i))
    {
      var header, start := HeaderIsRead(pack, i);
      var code, end := StreamIsRead(pack, i, start);
      DeltaMakes(i);
      var below := ObjectAt(entries[i].base);
      assert Fits(i) && Fits(entries[i].base);
      DeltaApplies(pack, entries[i].edits, below, code);
    }

    // ----- What the pack is read as

    ghost function IdAt(i: nat): Oid
      requires Valid() && i < |entries|
    {
      hash(ObjectAt(i).kind, ObjectAt(i).data)
    }

    /** Whether no two of the objects written share an ID. */
    ghost predicate IsCollisionFree()
      requires Valid()
    {
      forall i, j :: 0 <= i < |entries| && 0 <= j < |entries| && IdAt(i) == IdAt(j) ==> ObjectAt(i) == ObjectAt(j)
    }

    lemma {:induction false} ScanFromIs(pack: Pack, graph: Graph, i: nat, left: nat)
      requires IsWritten(pack) && pack.Spells(graph) && i + left == |entries|
      ensures graph.ScanFrom(offsets[i], left) == Success(offsets[i..|entries|])
      decreases left
    {
      if left > 0 {
        EntryEnds(pack, i);
        assert graph.next(offsets[i]) == pack.After(offsets[i]);
        ScanFromIs(pack, graph, i + 1, left - 1);
        assert offsets[i..|entries|] == [offsets[i]] + offsets[i + 1..|entries|];
      }
    }

    /** The entries are found where they were written, and nowhere else. */
    lemma ScanIs(pack: Pack, graph: Graph)
      requires IsWritten(pack) && pack.Spells(graph)
      ensures graph.Scan() == Success(offsets[..|entries|])
      ensures forall at :: graph.IsEntry(at) <==> exists i :: 0 <= i < |entries| && offsets[i] == at
    {
      AnnouncedIsExact(pack, |entries|);
      ScanFromIs(pack, graph, 0, |entries|);
      assert offsets[0..|entries|] == offsets[..|entries|];
      forall at
        ensures at in offsets[..|entries|] <==> exists i :: 0 <= i < |entries| && offsets[i] == at
      {
        if i :| 0 <= i < |entries| && offsets[i] == at {
          assert offsets[..|entries|][i] == at;
        }
      }
    }

    lemma WholeIsLinked(pack: Pack, graph: Graph, i: nat)
      requires IsWritten(pack) && pack.Spells(graph) && i < |entries| && entries[i].WholeOne?
      ensures graph.link(offsets[i]) == Whole(ObjectAt(i))
    {
      EntryIsRead(pack, i);
      assert graph.link(offsets[i]) == pack.LinkAt(offsets[i]);
      assert ObjectIn(i, depth).Some?;
    }

    /** Where a delta leads in the graph, and what it makes there. */
    lemma DeltaIsLinked(pack: Pack, graph: Graph, i: nat) returns (base: nat)
      requires IsWritten(pack) && pack.Spells(graph) && i < |entries| && !entries[i].WholeOne?
      ensures base == entries[i].base < |entries|
      ensures graph.apply(offsets[i], ObjectAt(base)) == Success(ObjectAt(i))
      ensures entries[i].OnName? ==> graph.link(offsets[i]) == Named(IdAt(base))
      ensures entries[i].OnDistance? ==>
                offsets[base] <= offsets[i] && graph.link(offsets[i]) == Back(offsets[i] - offsets[base])
    {
      base := entries[i].base;
      EntryIsRead(pack, i);
      assert graph.link(offsets[i]) == pack.LinkAt(offsets[i]);
      DeltaIsRead(pack, i);
      assert graph.apply(offsets[i], ObjectAt(base)) == pack.Apply(offsets[i], ObjectAt(base));
      assert Fits(i);
    }

    lemma IdIs(pack: Pack, graph: Graph, obj: Object)
      requires IsWritten(pack) && pack.Spells(graph)
      ensures graph.id(obj) == hash(obj.kind, obj.data)
    {
      assert graph.id(obj) == pack.IdOf(obj);
    }

    /** Each entry stands for the object that it was written for. */
    lemma {:induction false} EntryMakes(pack: Pack, graph: Graph, i: nat, n: nat) returns (chain: Chain)
      requires IsWritten(pack) && pack.Spells(graph) && i < |entries| && ObjectIn(i, n).Some?
      ensures graph.Makes(chain, offsets[i], ObjectAt(i))
      decreases n
    {
      if entries[i].WholeOne? {
        WholeIsLinked(pack, graph, i);
        chain := Bottom;
      } else {
        var base := DeltaIsLinked(pack, graph, i);
        var rest := EntryMakes(pack, graph, base, n - 1);
        chain := Delta(offsets[base], ObjectAt(base), rest);
        IdIs(pack, graph, ObjectAt(base));
        ScanIs(pack, graph);
      }
    }

    /** And for no other one. */
    lemma {:induction false} OnlyThatIsMade(pack: Pack, graph: Graph, chain: Chain, i: nat, obj: Object)
      requires IsWritten(pack) && pack.Spells(graph) && IsCollisionFree() && i < |entries|
      requires graph.Makes(chain, offsets[i], obj)
      ensures obj == ObjectAt(i)
      decreases chain
    {
      if entries[i].WholeOne? {
        WholeIsLinked(pack, graph, i);
      } else {
        var base := DeltaIsLinked(pack, graph, i);
        var k := base;
        if entries[i].OnName? {
          k := IndexOf(pack, graph, chain.at);
        }
        OnlyThatIsMade(pack, graph, chain.rest, k, chain.base);
        IdIs(pack, graph, chain.base);
      }
    }

    lemma IndexOf(pack: Pack, graph: Graph, at: nat) returns (k: nat)
      requires IsWritten(pack) && pack.Spells(graph) && graph.IsEntry(at)
      ensures k < |entries| && offsets[k] == at
    {
      ScanIs(pack, graph);
      k :| 0 <= k < |entries| && offsets[k] == at;
    }

    /** A pack is read as what was written: its entries are found, and each stands for its object and, with no
        two objects under one ID, for no other one. */
    lemma WrittenIsRead(pack: Pack)
      requires IsWritten(pack)
      ensures var graph := pack.Spelled();
              && graph.Scan() == Success(offsets[..|entries|])
              && (forall i :: 0 <= i < |entries| ==> graph.Means(offsets[i], ObjectAt(i)))
              && (IsCollisionFree() ==>
                    forall i, obj :: 0 <= i < |entries| && graph.Means(offsets[i], obj) ==> obj == ObjectAt(i))
    {
      var graph := pack.Spelled();
      pack.SpellsWhatIsSpelled();
      ScanIs(pack, graph);
      forall i | 0 <= i < |entries|
        ensures graph.Means(offsets[i], ObjectAt(i))
      {
        var chain := EntryMakes(pack, graph, i, depth);
      }
      if IsCollisionFree() {
        forall i, obj | 0 <= i < |entries| && graph.Means(offsets[i], obj)
          ensures obj == ObjectAt(i)
        {
          var chain :| graph.Makes(chain, offsets[i], obj);
          OnlyThatIsMade(pack, graph, chain, i, obj);
        }
      }
    }

    /** So it can be loaded, and a store of it has each object that was written, by its ID, and no other. */
    lemma WrittenIsStored(pack: Pack, store: map<Oid, Object>)
      requires IsWritten(pack) && IsCollisionFree()
      ensures pack.Spelled().CollisionFree() && pack.Spelled().Scan().Success? && pack.Spelled().Resolvable()
      ensures pack.Spelled().IsStore(store) ==>
                && (forall i :: 0 <= i < |entries| ==> IdAt(i) in store && store[IdAt(i)] == ObjectAt(i))
                && (forall name :: name in store ==> exists i :: 0 <= i < |entries| && IdAt(i) == name)
    {
      var graph := pack.Spelled();
      pack.SpellsWhatIsSpelled();
      ScanIs(pack, graph);
      WrittenIsRead(pack);
      forall obj
        ensures graph.id(obj) == hash(obj.kind, obj.data)
      {
        assert graph.id(obj) == pack.IdOf(obj);
      }
      forall at | graph.IsEntry(at)
        ensures graph.Resolves(at)
      {
        var i :| 0 <= i < |entries| && offsets[i] == at;
        assert graph.Means(at, ObjectAt(i));
      }
      if graph.IsStore(store) {
        forall i | 0 <= i < |entries|
          ensures IdAt(i) in store && store[IdAt(i)] == ObjectAt(i)
        {
          assert graph.IsEntry(offsets[i]) && graph.Means(offsets[i], ObjectAt(i));
          assert graph.Holds(ObjectAt(i));
        }
        forall name | name in store
          ensures exists i :: 0 <= i < |entries| && IdAt(i) == name
        {
          assert graph.Holds(store[name]);
          var at :| graph.IsEntry(at) && graph.Means(at, store[name]);
          var i :| 0 <= i < |entries| && offsets[i] == at;
          assert IdAt(i) == name;
        }
      }
    }
  }

  lemma Ends(pack: Pack, pos: nat, header: EntryHeader, start: nat, data: seq<byte>, next: nat)
    requires HeaderAt(pack.format, pack.bytes, pos) == Success(Parsed(header, start))
    requires pack.Inflate(start, header.size) == Success(Parsed(data, next))
    ensures pack.After(pos) == Success(next)
  {
  }

  lemma StreamInflates(pack: Pack, stream: seq<byte>, payload: seq<byte>, start: nat, end: nat)
    requires forall more :: pack.zlib(stream + more, |payload| + 1) == Some((payload, |stream|))
    requires |payload| <= 0x1000_0000 && StandsAt(pack.bytes, start, stream) && end == start + |stream|
    ensures pack.Inflate(start, |payload|) == Success(Parsed(payload, end))
  {
    var more := pack.bytes[start + |stream|..];
    assert pack.bytes[start..] == stream + more;
  }

  lemma HeaderStands(format: Format, header: EntryHeader, head: seq<byte>, data: seq<byte>, pos: nat, start: nat)
    requires Writable(format, header)
    requires head == EncodeHeader(header) && StandsAt(data, pos, head) && start == pos + |head|
    ensures HeaderAt(format, data, pos) == Success(Parsed(header, start))
  {
    HeaderRoundTrip(format, header, data, pos);
  }
}
