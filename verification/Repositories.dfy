/** The objects of a pack, each found by its ID: the worklist that indexes them, and the walk down
    a chain of deltas that reads one. */
module Repositories {
  import opened Cursors
  import opened DeltaGraphs
  import opened EntryHeaders
  import opened Packs
  import opened Wrappers

  ghost predicate Descending(nodes: seq<nat>) {
    forall i, j :: 0 <= i < j < |nodes| ==> nodes[i] > nodes[j]
  }

  lemma {:induction false} DescendingIsShort(nodes: seq<nat>, bound: nat)
    requires Descending(nodes) && forall i :: 0 <= i < |nodes| ==> nodes[i] < bound
    ensures |nodes| <= bound
    decreases bound
  {
    if nodes != [] {
      var rest := nodes[1..];
      assert forall i :: 0 <= i < |rest| ==> rest[i] == nodes[i + 1] && nodes[0] > nodes[i + 1];
      DescendingIsShort(rest, nodes[0]);
    }
  }

  /** A walk from `offset` that went down `deltas` and is at `base`. It goes down strictly until it
      jumps to an indexed offset, which is cached or written whole; a delta at no distance from
      its base is where it gets no further. */
  ghost predicate Walking(graph: Graph, index: map<Oid, nat>, cache: map<nat, Object>, size: nat, offset: nat,
                          deltas: seq<nat>, base: nat)
    requires graph.IndexIsGrounded(index, cache)
  {
    && (deltas + [base])[0] == offset
    && graph.Linked(index, cache, deltas + [base])
    && Descending(deltas + [base])
    && (forall i :: 0 <= i < |deltas| ==> deltas[i] < size)
  }

  /** A walk that is about to end: it is at an object, or at a delta built on itself. */
  ghost predicate Arriving(graph: Graph, index: map<Oid, nat>, cache: map<nat, Object>, offset: nat,
                           deltas: seq<nat>, base: nat)
    requires graph.IndexIsGrounded(index, cache)
  {
    && (deltas + [base])[0] == offset
    && graph.Linked(index, cache, deltas + [base])
    && (graph.IsGrounded(cache, base) || (base !in cache && graph.link(base) == Back(0)))
  }

  /** A step to a base at a distance keeps the walk within the bound on its length. */
  lemma StepBack(graph: Graph, index: map<Oid, nat>, cache: map<nat, Object>, size: nat, offset: nat,
                 deltas: seq<nat>, base: nat, distance: nat)
    requires graph.IndexIsGrounded(index, cache)
    requires Walking(graph, index, cache, size, offset, deltas, base)
          || Arriving(graph, index, cache, offset, deltas, base)
    requires base !in cache && graph.link(base) == Back(distance) && distance <= base < size
    ensures if distance == 0 then Arriving(graph, index, cache, offset, deltas + [base], base)
            else Walking(graph, index, cache, size, offset, deltas + [base], base - distance)
    ensures distance > 0 ==> |deltas + [base]| <= size
  {
    if distance > 0 {
      var nodes, more := deltas + [base], deltas + [base] + [base - distance];
      assert forall i :: 0 <= i < |nodes| ==> more[i] == nodes[i] && nodes[i] >= nodes[|nodes| - 1];
      DescendingIsShort(nodes, size);
    }
  }

  /** So does a step to the base an ID names, which is the last. */
  lemma StepNamed(graph: Graph, index: map<Oid, nat>, cache: map<nat, Object>, size: nat, offset: nat,
                  deltas: seq<nat>, base: nat, name: Oid)
    requires graph.IndexIsGrounded(index, cache)
    requires Walking(graph, index, cache, size, offset, deltas, base)
          || Arriving(graph, index, cache, offset, deltas, base)
    requires base !in cache && graph.link(base) == Named(name) && name in index && base < size
    ensures Arriving(graph, index, cache, offset, deltas + [base], index[name])
    ensures |deltas + [base]| <= size
  {
    DescendingIsShort(deltas + [base], size);
  }

  class Repository {
    const pack: Pack
    /** What the pack spells; no code looks at it. */
    ghost const graph: Graph
    /** Where each object starts in the pack. */
    var index: map<Oid, nat>
    /** The objects read so far, by where they start. */
    var cache: map<nat, Object>

    constructor (pack: Pack)
      ensures this.pack == pack && graph == pack.Spelled() && Valid()
      ensures index == map[] && cache == map[]
    {
      this.pack := pack;
      graph := pack.Spelled();
      index := map[];
      cache := map[];
      new;
      pack.SpellsWhatIsSpelled();
    }

    ghost predicate Valid()
      reads this
    {
      pack.Spells(graph) && graph.LeavesIncompleteToTheWorklist() && graph.Sound(index, cache)
    }

    /** What the object at `offset` comes to, now. */
    ghost function Look(offset: nat): Outcome
      reads this
      requires Valid()
    {
      graph.Look(index, cache, offset)
    }

    /** The chain of deltas from `offset` down to an object that is cached or written whole, and
        that object, which is cached then. `None` stands for an ID that is not indexed. */
    method WalkDown(offset: nat) returns (r: Result<Option<Object>, Error>, deltas: seq<nat>, ghost base: nat)
      requires Valid()
      modifies this`cache
      ensures graph.Linked(index, old(cache), deltas + [base]) && (deltas + [base])[0] == offset
      ensures r == match old(graph.Look(index, cache, base))
                   case Found(obj) => Success(Some(obj))
                   case Missing => Success(None)
                   case Bad(error) => Failure(error)
      ensures r.Success? && r.value.Some? ==>
                base in cache && cache[base] == r.value.value && graph.Extends(index, old(cache), cache)
      ensures r.Failure? || r.value.None? ==> cache == old(cache)
    {
      var baseOffset: nat := offset;
      deltas := [];
      while true
        invariant cache == old(cache)
        invariant Walking(graph, index, cache, |pack.bytes|, offset, deltas, baseOffset)
               || Arriving(graph, index, cache, offset, deltas, baseOffset)
        invariant |deltas| <= |pack.bytes|
        decreases |pack.bytes| - |deltas|
      {
        base := baseOffset;
        if baseOffset in cache {
          return Success(Some(cache[baseOffset])), deltas, base;
        }
        var link := ReadLink(pack, graph, baseOffset);
        match link {
          case Broken(error) =>
            return Failure(error), deltas, base;
          case Whole(obj) =>
            cache := cache[baseOffset := obj];
            return Success(Some(obj)), deltas, base;
          case Back(distance) =>
            if distance > baseOffset {
              return Failure(InvalidFormat), deltas, base;
            }
            StepBack(graph, index, cache, |pack.bytes|, offset, deltas, baseOffset, distance);
            deltas := deltas + [baseOffset];
            baseOffset := baseOffset - distance;
          case Named(id) =>
            if id !in index {
              return Success(None), deltas, base;
            }
            StepNamed(graph, index, cache, |pack.bytes|, offset, deltas, baseOffset, id);
            deltas := deltas + [baseOffset];
            baseOffset := index[id];
        }
        // A chain cannot be longer than the pack has objects.
        if |deltas| > |pack.bytes| {
          base := baseOffset;
          return Failure(InvalidFormat), deltas, base;
        }
      }
    }

    /** The object at `offset`, its deltas applied. With `indexed`, an ID that is not known is an
        error and not a `None`. */
    method ReadObjectAt(offset: nat, indexed: bool) returns (r: Result<Option<Object>, Error>)
      requires Valid()
      modifies this`cache
      ensures Valid() && graph.Extends(index, old(cache), cache)
      ensures r == match old(Look(offset))
                   case Found(obj) => Success(Some(obj))
                   case Missing => if indexed then Failure(ObjectNotFound) else Success(None)
                   case Bad(error) => Failure(error)
      ensures old(Look(offset)).Found? ==> offset in cache && cache[offset] == old(Look(offset)).obj
      ensures old(Look(offset)).Missing? ==> cache == old(cache)
    {
      ghost var before := cache;
      var found, deltas, base := WalkDown(offset);
      ghost var nodes := deltas + [base];
      if found.Failure? {
        graph.ChainFails(index, before, nodes, |deltas|);
        return Failure(found.error);
      }
      if found.value.None? {
        graph.ChainFails(index, before, nodes, |deltas|);
        return if indexed then Failure(ObjectNotFound) else Success(None);
      }
      // The deltas, from the one next to the base to the object asked for.
      var obj := found.value.value;
      for i := |deltas| downto 0
        invariant graph.Look(index, before, nodes[i]) == Found(obj)
        invariant graph.Extends(index, before, cache)
        invariant nodes[i] in cache && cache[nodes[i]] == obj
      {
        var made := ApplyDelta(pack, graph, deltas[i], obj);
        assert nodes[i] == deltas[i];
        assert graph.Look(index, before, nodes[i]) == graph.Then(Found(obj), nodes[i]);
        if made.Failure? {
          graph.ChainFails(index, before, nodes, i);
          graph.ExtensionIsSound(index, before, cache);
          return Failure(made.error);
        }
        obj := made.value;
        cache := cache[deltas[i] := obj];
      }
      graph.ExtensionIsSound(index, before, cache);
      return Success(Some(obj));
    }

    /** Indexes the objects written whole, and answers where the deltas are. */
    method IndexFirstPass() returns (r: Result<seq<nat>, Error>)
      requires Valid() && index == map[] && cache == map[]
      modifies this`index
      ensures r.Failure? ==> graph.Scan() == Failure(r.error) && index == map[]
      ensures r.Success? ==> graph.Scan().Success? && Valid() && PendingOrRegistered(r.value)
      ensures r.Success? ==> forall at :: at in r.value ==> graph.IsEntry(at) && !graph.link(at).Whole?
    {
      var cursor := new Cursor(pack.bytes, 0);
      var total :- ReadAnnounced(pack, graph, cursor);
      var pending, found: map<Oid, nat> := [], map[];
      ghost var seen: seq<nat> := [];
      PrependedNothing(graph.ScanFrom(cursor.pos, total));
      for i := 0 to total
        invariant cursor.data == pack.bytes && index == map[] && cache == map[]
        invariant graph.Scan() == Prepended(seen, graph.ScanFrom(cursor.pos, total - i))
        invariant Sorted(graph, seen, pending, found)
      {
        var at := cursor.pos;
        graph.ScanStep(seen, at, total - i);
        var link :- ReadEntry(pack, graph, cursor);
        seen := seen + [at];
        match link {
          case Whole(obj) => found := found[pack.IdOf(obj) := at];
          case _ => pending := pending + [at];
        }
      }
      index := found;
      assert seen + [] == seen;
      SortedIsRegistered(graph, seen, pending, found);
      return Success(pending);
    }

    /** Whether the ID of every entry is indexed, but those `pending` has. */
    ghost predicate PendingOrRegistered(pending: seq<nat>)
      reads this
    {
      forall at {:trigger graph.Registered(index, at)} ::
        graph.IsEntry(at) && at !in pending ==> graph.Registered(index, at)
    }

    /** Reads the delta at `at` and indexes it by its ID, unless it waits for an ID that is not
        indexed yet. */
    method TryOne(at: nat) returns (r: Result<Option<Oid>, Error>)
      requires Valid() && graph.IsEntry(at)
      modifies this
      ensures Valid() && KeepsRegistered(graph, old(index), index)
      ensures r.Failure? ==> r.error != IncompletePack
      ensures r.Failure? && graph.CollisionFree() ==> !graph.Resolves(at)
      ensures r.Success? && r.value.Some? ==> graph.Registered(index, at)
      ensures r.Success? && r.value.None? ==> index == old(index) && cache == old(cache) && Look(at).Missing?
    {
      graph.LookIsNeverIncomplete(index, cache, at);
      if Look(at).Bad? && graph.CollisionFree() {
        graph.BadMeansNothing(index, cache, at);
      }
      var read :- ReadObjectAt(at, false);
      if read.None? {
        return Success(None);
      }
      var oid := pack.IdOf(read.value);
      graph.IndexGrows(index, cache, at);
      index := index[oid := at];
      return Success(Some(oid));
    }

    /** One round of the worklist: each pending delta is tried once, from the last to the first, and
        one that resolves is indexed and taken off the list, the last one taking its place. */
    method TryPending(pending: seq<nat>) returns (r: Result<seq<nat>, Error>, ghost tried: seq<nat>)
      requires Valid() && forall at :: at in pending ==> graph.IsEntry(at)
      modifies this
      ensures Valid() && KeepsRegistered(graph, old(index), index)
      ensures r.Failure? ==> r.error != IncompletePack
      ensures r.Failure? && graph.CollisionFree() ==>
                exists at :: at in pending && !graph.Resolves(at)
      ensures r.Success? ==>
                |tried| == |pending| && forall k :: 0 <= k < |tried| ==> tried[k] == pending[|pending| - 1 - k]
      ensures r.Success? ==> |r.value| <= |pending| && forall at :: at in r.value ==> at in pending
      ensures r.Success? ==> AreTried(graph, index, pending, 0, r.value)
      ensures r.Success? && |r.value| == |pending| ==> r.value == pending && graph.AllWait(index, cache, pending, 0)
    {
      var left := pending;
      var i := |pending|;
      tried := [];
      ghost var kept: seq<nat> := [];
      assert Tally(pending, i, left, kept, tried);
      while i > 0
        invariant 0 <= i <= |pending| && Tally(pending, i, left, kept, tried)
        invariant Valid() && KeepsRegistered(graph, old(index), index)
        invariant AreTried(graph, index, pending, i, kept)
        invariant |kept| == |pending| - i ==> graph.AllWait(index, cache, pending, i)
      {
        i := i - 1;
        TallyOn(pending, i, left, kept, tried);
        var at := left[i];
        tried := tried + [at];
        ghost var before, others := index, kept;
        var oid :- TryOne(at);
        if oid.Some? {
          left := SwapRemove(left, i);
          kept := Rotated(kept);
          assert |kept| < |pending| - i;
        } else {
          kept := [at] + kept;
          assert |kept| == |pending| - i ==> graph.AllWait(index, cache, pending, i);
        }
        StillTried(graph, before, index, pending, i, others, kept);
      }
      TallyDone(pending, left, kept, tried);
      return Success(left), tried;
    }

    /** Indexes the pack: rounds of the worklist, until nothing is pending or a round resolves
        nothing. */
    method Load() returns (r: Result<(), Error>)
      requires Valid() && index == map[] && cache == map[]
      modifies this
      ensures Valid()
      ensures graph.Scan().Failure? ==> r == Failure(graph.Scan().error)
      ensures r.Success? ==> graph.Scan().Success? && graph.AllRegistered(index)
      ensures r.Failure? && graph.Scan().Success? && graph.CollisionFree() ==> !graph.Resolvable()
      ensures r == Failure(IncompletePack) && graph.Scan().Success? ==>
                exists pending :: graph.Stuck(index, cache, pending)
    {
      var pending :- IndexFirstPass();
      var remaining := |pending|;
      while remaining > 0
        invariant Valid() && remaining == |pending| && graph.Scan().Success?
        invariant forall at :: at in pending ==> graph.IsEntry(at)
        invariant PendingOrRegistered(pending)
        decreases remaining
      {
        ghost var before := index;
        var left, tried := TryPending(pending);
        if left.Failure? {
          return Failure(left.error);
        }
        StillRegistered(graph, before, index, pending, left.value);
        if |left.value| == remaining {
          StuckHere(pending);
          return Failure(IncompletePack);
        }
        pending := left.value;
        remaining := |pending|;
      }
      return Success(());
    }

    ghost method StuckHere(pending: seq<nat>)
      requires Valid() && pending != [] && graph.AllWait(index, cache, pending, 0) && PendingOrRegistered(pending)
      requires forall at :: at in pending ==> graph.IsEntry(at)
      ensures graph.Stuck(index, cache, pending)
      ensures graph.CollisionFree() ==> !graph.Resolvable()
    {
      if graph.CollisionFree() {
        graph.StuckIsNotResolvable(index, cache, pending);
      }
    }

    /** Reads a pack. With no two of its objects under one ID, it is read exactly when its entries
        can be told apart and each of them stands for an object, whatever order they come in. */
    static method New(pack: Pack) returns (r: Result<Repository, Error>)
      ensures r.Success? ==> fresh(r.value) && r.value.pack == pack && r.value.graph == pack.Spelled()
      ensures r.Success? ==> r.value.Valid() && pack.Spelled().AllRegistered(r.value.index)
      ensures r.Success? && pack.Spelled().CollisionFree() ==> pack.Spelled().IsStore(r.value.Store())
      ensures pack.Spelled().Scan().Failure? ==> r == Failure(pack.Spelled().Scan().error)
      ensures pack.Spelled().CollisionFree() ==>
                (r.Success? <==> pack.Spelled().Scan().Success? && pack.Spelled().Resolvable())
      ensures r == Failure(IncompletePack) && pack.Spelled().Scan().Success? ==>
                exists index, cache, pending :: pack.Spelled().Stuck(index, cache, pending)
    {
      var repository := new Repository(pack);
      var loaded := repository.Load();
      if loaded.Failure? {
        return Failure(loaded.error);
      }
      repository.graph.RegisteredResolves(repository.index);
      if repository.graph.CollisionFree() {
        repository.graph.StoreIsMeaning(repository.index, repository.cache);
      }
      return Success(repository);
    }

    /** The object `oid` names. Every ID that is indexed is that of the object it is read as. */
    method ReadObject(oid: Oid) returns (r: Result<Object, Error>)
      requires Valid()
      modifies this`cache
      ensures Valid() && Store() == old(Store())
      ensures r == if oid in Store() then Success(Store()[oid]) else Failure(ObjectNotFound)
      ensures r.Success? ==> pack.IdOf(r.value) == oid
    {
      if oid !in index {
        return Failure(ObjectNotFound);
      }
      var offset := index[oid];
      ghost var before := cache;
      assert Look(offset) == Found(graph.Grounded(cache, offset));
      var read := ReadObjectAt(offset, true);
      graph.ExtensionIsSound(index, before, cache);
      return Success(read.value.value);
    }

    /** The objects the index names, by their IDs. */
    ghost function Store(): map<Oid, Object>
      reads this
      requires Valid()
    {
      graph.StoreOf(index, cache)
    }
  }

  /** `list` without the element at `i`, the last one in its place. */
  function SwapRemove(list: seq<nat>, i: nat): seq<nat>
    requires i < |list|
  {
    list[i := list[|list| - 1]][..|list| - 1]
  }

  ghost predicate KeepsRegistered(graph: Graph, before: map<Oid, nat>, after: map<Oid, nat>) {
    forall at {:trigger graph.Registered(after, at)} {:trigger graph.Registered(before, at)} ::
      graph.Registered(before, at) ==> graph.Registered(after, at)
  }

  /** The worklist while a round is at `i`: the deltas before it are as they were, those after it
      that did not resolve are `kept`, and each of those was tried once. */
  ghost predicate Tally(pending: seq<nat>, i: nat, left: seq<nat>, kept: seq<nat>, tried: seq<nat>)
    requires i <= |pending|
  {
    && left == pending[..i] + kept
    && |tried| == |pending| - i
    && (forall k :: 0 <= k < |tried| ==> tried[k] == pending[|pending| - 1 - k])
    && |kept| <= |pending| - i
    && (forall at :: at in kept ==> at in pending)
    && (|kept| == |pending| - i ==> kept == pending[i..])
  }

  lemma TallyOn(pending: seq<nat>, i: nat, left: seq<nat>, kept: seq<nat>, tried: seq<nat>)
    requires i < |pending| && Tally(pending, i + 1, left, kept, tried)
    ensures left[i] == pending[i] && forall at :: at in Rotated(kept) <==> at in kept
    ensures Tally(pending, i, SwapRemove(left, i), Rotated(kept), tried + [left[i]])
    ensures |Rotated(kept)| < |pending| - i
    ensures Tally(pending, i, left, [left[i]] + kept, tried + [left[i]])
  {
    assert left == pending[..i] + [pending[i]] + kept == pending[..i] + ([pending[i]] + kept);
    SwapRemoved(pending[..i], pending[i], kept);
  }

  lemma TallyDone(pending: seq<nat>, left: seq<nat>, kept: seq<nat>, tried: seq<nat>)
    requires Tally(pending, 0, left, kept, tried)
    ensures left == kept && |left| <= |pending| && (forall at :: at in left ==> at in pending)
    ensures |tried| == |pending| && forall k :: 0 <= k < |tried| ==> tried[k] == pending[|pending| - 1 - k]
    ensures |left| == |pending| ==> left == pending
  {
    assert pending[..0] + kept == kept && pending[0..] == pending;
  }

  /** The deltas from `i` on that are not kept are registered. */
  ghost predicate AreTried(graph: Graph, index: map<Oid, nat>, pending: seq<nat>, i: nat, kept: seq<nat>) {
    forall k {:trigger graph.Registered(index, pending[k])} ::
      i <= k < |pending| && pending[k] !in kept ==> graph.Registered(index, pending[k])
  }

  lemma StillTried(graph: Graph, before: map<Oid, nat>, after: map<Oid, nat>, pending: seq<nat>, i: nat,
      others: seq<nat>, kept: seq<nat>)
    requires i < |pending| && KeepsRegistered(graph, before, after) && AreTried(graph, before, pending, i + 1, others)
    requires forall at :: at in others ==> at in kept
    requires pending[i] in kept || graph.Registered(after, pending[i])
    ensures AreTried(graph, after, pending, i, kept)
  {
    forall k | i <= k < |pending| && pending[k] !in kept
      ensures graph.Registered(after, pending[k])
    {
      if k > i {
        assert graph.Registered(before, pending[k]);
      }
    }
  }

  lemma StillRegistered(graph: Graph, before: map<Oid, nat>, after: map<Oid, nat>, pending: seq<nat>, left: seq<nat>)
    requires KeepsRegistered(graph, before, after)
    requires forall at {:trigger graph.Registered(before, at)} ::
               graph.IsEntry(at) && at !in pending ==> graph.Registered(before, at)
    requires AreTried(graph, after, pending, 0, left)
    ensures forall at {:trigger graph.Registered(after, at)} ::
              graph.IsEntry(at) && at !in left ==> graph.Registered(after, at)
  {
    forall at | graph.IsEntry(at) && at !in left
      ensures graph.Registered(after, at)
    {
      if at in pending {
        var k :| 0 <= k < |pending| && pending[k] == at;
        assert graph.Registered(after, pending[k]);
      } else {
        assert graph.Registered(before, at);
      }
    }
  }

  ghost function Rotated(list: seq<nat>): seq<nat> {
    if list == [] then [] else [list[|list| - 1]] + list[..|list| - 1]
  }

  lemma SwapRemoved(before: seq<nat>, at: nat, after: seq<nat>)
    ensures SwapRemove(before + [at] + after, |before|) == before + Rotated(after)
    ensures |Rotated(after)| == |after| && forall x :: x in Rotated(after) <==> x in after
  {
    if after != [] {
      assert after == after[..|after| - 1] + [after[|after| - 1]];
    }
  }

  /** The entries seen, sorted: the deltas are pending, the objects written whole are found by
      their IDs. */
  ghost predicate Sorted(graph: Graph, seen: seq<nat>, pending: seq<nat>, found: map<Oid, nat>) {
    && (forall at :: at in pending ==> at in seen && !graph.link(at).Whole?)
    && (forall at :: at in seen && at !in pending ==>
          graph.link(at).Whole? && graph.id(graph.link(at).obj) in found)
    && (forall id :: id in found ==>
          found[id] in seen && graph.link(found[id]).Whole? && graph.id(graph.link(found[id]).obj) == id)
  }

  lemma SortedIsRegistered(graph: Graph, seen: seq<nat>, pending: seq<nat>, found: map<Oid, nat>)
    requires Sorted(graph, seen, pending, found)
    ensures forall at :: at in seen && at !in pending ==> graph.Registered(found, at)
  {
    forall at | at in seen && at !in pending
      ensures graph.Registered(found, at)
    {
      assert graph.Makes(Bottom, at, graph.link(at).obj);
    }
  }
}
