/** What the entries of a pack stand for, with no cache and no order of reading.

    An entry is an object written whole, or a delta built on what is at a distance back in the
    pack, or a delta built on the entry that has a given ID. The last kind may come before its
    base, and an ID is known only once the entry it is of is resolved: the meaning of a pack is
    a least fixpoint, the objects that have a finite chain of deltas down to one written whole.
    `Look` is what a reader finds from an index and a cache that are still growing, and the
    lemmas say how near the one comes to the other. */
module DeltaGraphs {
  import opened Bytes
  import opened Cursors
  import opened EntryHeaders
  import opened Wrappers

  /** A signature, a version and a count, four bytes each. */
  const HEADER_LENGTH: nat := 12

  datatype Object = Object(kind: ObjectType, data: seq<byte>)

  /** What is written at an offset: an object, or a delta and what it is built on. */
  datatype Link =
    | Broken(error: Error)
    | Whole(obj: Object)
    | Back(distance: nat)
    | Named(base: Oid)

  /** The deltas an object is made by, each with where its base is and what it is. */
  datatype Chain = Bottom | Delta(at: nat, base: Object, rest: Chain)

  /** What reading an object comes to while some IDs are not indexed yet. */
  datatype Outcome = Found(obj: Object) | Missing | Bad(error: Error)

  /** A pack as a reader meets it: how many entries it announces, where each one ends, what is
      written at an offset, what the delta at an offset makes of its base, and the ID of an object. */
  datatype Graph = Graph(
    announced: Result<nat, Error>,
    next: nat -> Result<nat, Error>,
    link: nat -> Link,
    apply: (nat, Object) -> Result<Object, Error>,
    id: Object -> Oid
  ) {

    // ----- The entries

    /** Where the next `count` entries start, the first of them at `pos`. */
    ghost function ScanFrom(pos: nat, count: nat): Result<seq<nat>, Error>
      decreases count, pos
    {
      if count == 0 then Success([])
      else
        var after :- next(pos);
        var rest :- ScanFrom(after, count - 1);
        Success([pos] + rest)
    }

    /** Where the entries of the pack start, the first of them after the header. */
    ghost function Scan(): Result<seq<nat>, Error> {
      var count :- announced;
      ScanFrom(HEADER_LENGTH, count)
    }

    ghost predicate IsEntry(offset: nat) {
      Scan().Success? && offset in Scan().value
    }

    lemma {:induction false} ScanStep(seen: seq<nat>, pos: nat, count: nat)
      requires count > 0
      ensures match next(pos)
              case Failure(error) => Prepended(seen, ScanFrom(pos, count)) == Failure(error)
              case Success(after) =>
                Prepended(seen, ScanFrom(pos, count)) == Prepended(seen + [pos], ScanFrom(after, count - 1))
    {
      if next(pos).Success? {
        var rest := ScanFrom(next(pos).value, count - 1);
        if rest.Success? {
          assert seen + ([pos] + rest.value) == seen + [pos] + rest.value;
        }
      }
    }

    // ----- The meaning of an entry

    /** Whether `chain` makes `obj` at `offset`. The base of a delta by ID is any entry with that
        ID. */
    ghost predicate Makes(chain: Chain, offset: nat, obj: Object) {
      match link(offset)
      case Broken(_) => false
      case Whole(whole) => chain.Bottom? && whole == obj
      case Back(distance) =>
        && chain.Delta? && distance <= offset && chain.at == offset - distance
        && apply(offset, chain.base) == Success(obj)
        && Makes(chain.rest, chain.at, chain.base)
      case Named(name) =>
        && chain.Delta? && IsEntry(chain.at) && id(chain.base) == name
        && apply(offset, chain.base) == Success(obj)
        && Makes(chain.rest, chain.at, chain.base)
    }

    ghost predicate Means(offset: nat, obj: Object) {
      exists chain :: Makes(chain, offset, obj)
    }

    ghost predicate Resolves(offset: nat) {
      exists obj :: Means(offset, obj)
    }

    /** Whether every entry stands for an object. */
    ghost predicate Resolvable() {
      forall at {:trigger Resolves(at)} :: IsEntry(at) ==> Resolves(at)
    }

    /** Whether no two objects of the pack share an ID. */
    ghost predicate CollisionFree() {
      forall a, b, x, y {:trigger Means(a, x), Means(b, y)} ::
        IsEntry(a) && IsEntry(b) && Means(a, x) && Means(b, y) && id(x) == id(y) ==> x == y
    }

    lemma {:induction false} MeaningIsUnique(c: Chain, d: Chain, offset: nat, x: Object, y: Object)
      requires CollisionFree() && Makes(c, offset, x) && Makes(d, offset, y)
      ensures x == y
    {
      match link(offset)
      case Whole(_) =>
      case Back(_) => MeaningIsUnique(c.rest, d.rest, c.at, c.base, d.base);
      case Named(_) => assert Means(c.at, c.base) && Means(d.at, d.base);
    }

    // ----- Reading with an index and a cache

    ghost predicate IsGrounded(cache: map<nat, Object>, offset: nat) {
      offset in cache || link(offset).Whole?
    }

    /** The object at an offset that is cached or written whole. */
    ghost function Grounded(cache: map<nat, Object>, offset: nat): Object
      requires IsGrounded(cache, offset)
    {
      if offset in cache then cache[offset] else link(offset).obj
    }

    /** The delta at `offset` applied to what its base came to. */
    ghost function Then(base: Outcome, offset: nat): Outcome {
      match base
      case Found(obj) =>
        (match apply(offset, obj) case Success(made) => Found(made) case Failure(error) => Bad(error))
      case _ => base
    }

    /** Every indexed ID is that of an entry which is cached or written whole. */
    ghost predicate IndexIsGrounded(index: map<Oid, nat>, cache: map<nat, Object>) {
      forall name :: name in index ==>
        && IsEntry(index[name])
        && IsGrounded(cache, index[name])
        && id(Grounded(cache, index[name])) == name
    }

    /** Every cached object is one the pack means. */
    ghost predicate CacheIsSound(cache: map<nat, Object>) {
      forall at :: at in cache ==> Means(at, cache[at])
    }

    ghost predicate Sound(index: map<Oid, nat>, cache: map<nat, Object>) {
      IndexIsGrounded(index, cache) && CacheIsSound(cache)
    }

    /** What the object at `offset` comes to. A delta at no distance from its base is built on
        itself, which is what the bound on the length of a chain is there to refuse. */
    ghost function Look(index: map<Oid, nat>, cache: map<nat, Object>, offset: nat): Outcome
      requires IndexIsGrounded(index, cache)
      decreases offset
    {
      if offset in cache then Found(cache[offset])
      else match link(offset)
        case Broken(error) => Bad(error)
        case Whole(obj) => Found(obj)
        case Back(distance) =>
          if distance == 0 || distance > offset then Bad(InvalidFormat)
          else Then(Look(index, cache, offset - distance), offset)
        case Named(name) =>
          if name !in index then Missing else Then(Found(Grounded(cache, index[name])), offset)
    }

    /** An indexed object is one the pack means. */
    lemma GroundedIsMeant(index: map<Oid, nat>, cache: map<nat, Object>, name: Oid) returns (chain: Chain)
      requires Sound(index, cache) && name in index
      ensures Makes(chain, index[name], Grounded(cache, index[name]))
    {
      var at := index[name];
      if at in cache {
        chain :| Makes(chain, at, cache[at]);
      } else {
        chain := Bottom;
      }
    }

    /** What is found is what the pack means. */
    lemma {:induction false} LookIsSound(index: map<Oid, nat>, cache: map<nat, Object>, offset: nat)
      returns (chain: Chain)
      requires Sound(index, cache) && Look(index, cache, offset).Found?
      ensures Makes(chain, offset, Look(index, cache, offset).obj)
      decreases offset
    {
      if offset in cache {
        chain :| Makes(chain, offset, cache[offset]);
      } else {
        match link(offset)
        case Whole(_) =>
          chain := Bottom;
        case Back(distance) =>
          var rest := LookIsSound(index, cache, offset - distance);
          chain := Delta(offset - distance, Look(index, cache, offset - distance).obj, rest);
        case Named(name) =>
          var rest := GroundedIsMeant(index, cache, name);
          chain := Delta(index[name], Grounded(cache, index[name]), rest);
      }
    }

    lemma {:induction false} NothingIsBuiltOnItself(chain: Chain, offset: nat, obj: Object)
      requires Makes(chain, offset, obj)
      ensures link(offset) != Back(0)
    {
      if link(offset) == Back(0) {
        NothingIsBuiltOnItself(chain.rest, offset, chain.base);
      }
    }

    /** What the pack means is found, unless it waits for an ID: reading never fails on it. */
    lemma {:induction false} LookIsComplete(index: map<Oid, nat>, cache: map<nat, Object>, chain: Chain, offset: nat,
                                            obj: Object)
      requires Sound(index, cache) && CollisionFree() && Makes(chain, offset, obj)
      ensures Look(index, cache, offset).Missing? || Look(index, cache, offset) == Found(obj)
      decreases chain
    {
      if offset in cache {
        var other :| Makes(other, offset, cache[offset]);
        MeaningIsUnique(chain, other, offset, obj, cache[offset]);
      } else {
        match link(offset)
        case Whole(_) =>
        case Back(distance) =>
          NothingIsBuiltOnItself(chain, offset, obj);
          LookIsComplete(index, cache, chain.rest, chain.at, chain.base);
        case Named(name) =>
          if name in index {
            var other := GroundedIsMeant(index, cache, name);
            assert Means(index[name], Grounded(cache, index[name])) && Means(chain.at, chain.base);
          }
      }
    }

    /** What reading fails on stands for nothing. */
    lemma BadMeansNothing(index: map<Oid, nat>, cache: map<nat, Object>, offset: nat)
      requires Sound(index, cache) && CollisionFree() && Look(index, cache, offset).Bad?
      ensures !Resolves(offset)
    {
      forall obj | Means(offset, obj)
        ensures false
      {
        var chain :| Makes(chain, offset, obj);
        LookIsComplete(index, cache, chain, offset, obj);
      }
    }

    /** No reader answers `IncompletePack`, which is the worklist's own word. */
    ghost predicate LeavesIncompleteToTheWorklist() {
      && announced != Failure(IncompletePack)
      && (forall offset :: next(offset) != Failure(IncompletePack))
      && (forall offset :: link(offset) != Broken(IncompletePack))
      && (forall offset, base :: apply(offset, base) != Failure(IncompletePack))
    }

    lemma {:induction false} LookIsNeverIncomplete(index: map<Oid, nat>, cache: map<nat, Object>, offset: nat)
      requires LeavesIncompleteToTheWorklist() && IndexIsGrounded(index, cache)
      ensures Look(index, cache, offset) != Bad(IncompletePack)
      decreases offset
    {
      if offset !in cache && link(offset).Back? && 0 < link(offset).distance <= offset {
        LookIsNeverIncomplete(index, cache, offset - link(offset).distance);
      }
    }

    /** What waits for an ID waits for that of an entry it is built on. */
    lemma {:induction false} MissingWaitsForAnEntry(index: map<Oid, nat>, cache: map<nat, Object>, chain: Chain,
                                                    offset: nat, obj: Object)
      returns (rest: Chain, at: nat, base: Object)
      requires Sound(index, cache) && Makes(chain, offset, obj) && Look(index, cache, offset).Missing?
      ensures rest < chain && IsEntry(at) && Makes(rest, at, base) && id(base) !in index
      decreases chain
    {
      match link(offset)
      case Back(_) =>
        NothingIsBuiltOnItself(chain, offset, obj);
        rest, at, base := MissingWaitsForAnEntry(index, cache, chain.rest, chain.at, chain.base);
      case Named(_) =>
        rest, at, base := chain.rest, chain.at, chain.base;
    }

    /** Whether `after` is `before` and more: what was cached is as it was, and what is new is what
        the reading came to. */
    ghost predicate Extends(index: map<Oid, nat>, before: map<nat, Object>, after: map<nat, Object>)
      requires IndexIsGrounded(index, before)
    {
      && (forall at :: at in before ==> at in after && after[at] == before[at])
      && (forall at :: at in after ==> Look(index, before, at) == Found(after[at]))
    }

    /** What a reading adds to the cache is sound, and changes no object the index names. */
    lemma ExtensionIsSound(index: map<Oid, nat>, before: map<nat, Object>, after: map<nat, Object>)
      requires Sound(index, before) && Extends(index, before, after)
      ensures Sound(index, after)
      ensures forall at :: IsGrounded(before, at) ==>
                IsGrounded(after, at) && Grounded(after, at) == Grounded(before, at)
    {
      forall at | at in after
        ensures Means(at, after[at])
      {
        var chain := LookIsSound(index, before, at);
      }
    }

    // ----- The walk down a chain of deltas, and back

    /** Whether each of `nodes` is a delta built on the next one. */
    ghost predicate Linked(index: map<Oid, nat>, cache: map<nat, Object>, nodes: seq<nat>)
      requires IndexIsGrounded(index, cache)
    {
      forall i :: 0 <= i < |nodes| - 1 ==>
        Look(index, cache, nodes[i]) == Then(Look(index, cache, nodes[i + 1]), nodes[i])
    }

    /** A chain comes to whatever it is that is not an object at its end. */
    lemma {:induction false} ChainFails(index: map<Oid, nat>, cache: map<nat, Object>, nodes: seq<nat>, i: nat)
      requires IndexIsGrounded(index, cache) && Linked(index, cache, nodes) && i < |nodes|
      requires !Look(index, cache, nodes[i]).Found?
      ensures Look(index, cache, nodes[0]) == Look(index, cache, nodes[i])
      decreases i
    {
      if i > 0 {
        assert Look(index, cache, nodes[i - 1]) == Then(Look(index, cache, nodes[i]), nodes[i - 1]);
        ChainFails(index, cache, nodes, i - 1);
      }
    }

    /** Whether the ID of the entry at `at` is indexed. */
    ghost predicate Registered(index: map<Oid, nat>, at: nat) {
      exists obj :: Means(at, obj) && id(obj) in index
    }

    ghost predicate AllRegistered(index: map<Oid, nat>) {
      forall at {:trigger Registered(index, at)} :: IsEntry(at) ==> Registered(index, at)
    }

    lemma RegisteredResolves(index: map<Oid, nat>)
      requires AllRegistered(index)
      ensures Resolvable()
    {
      forall at | IsEntry(at)
        ensures Resolves(at)
      {
        assert Registered(index, at);
      }
    }

    /** An entry that is read can be indexed, and what was registered is still. */
    lemma IndexGrows(index: map<Oid, nat>, cache: map<nat, Object>, at: nat)
      requires Sound(index, cache) && IsEntry(at) && at in cache
      ensures var more := index[id(cache[at]) := at];
              && Sound(more, cache) && Registered(more, at)
              && forall other :: Registered(index, other) ==> Registered(more, other)
    {
      var more := index[id(cache[at]) := at];
      assert Means(at, cache[at]) && id(cache[at]) in more;
      forall other | Registered(index, other)
        ensures Registered(more, other)
      {
        var obj :| Means(other, obj) && id(obj) in index;
        assert id(obj) in more;
      }
    }

    lemma RegisteredIsIndexed(index: map<Oid, nat>, chain: Chain, at: nat, obj: Object)
      requires CollisionFree() && Registered(index, at) && Makes(chain, at, obj)
      ensures id(obj) in index
    {
      var other :| Means(at, other) && id(other) in index;
      var d :| Makes(d, at, other);
      MeaningIsUnique(chain, d, at, obj, other);
    }

    /** Whether the pending deltas from the one at `i` on wait for an ID. */
    ghost predicate AllWait(index: map<Oid, nat>, cache: map<nat, Object>, pending: seq<nat>, i: nat)
      requires IndexIsGrounded(index, cache)
    {
      forall k :: i <= k < |pending| ==> Look(index, cache, pending[k]).Missing?
    }

    /** A state no round of the worklist gets on from: every entry is registered but those of
        `pending`, and each of those waits for an ID that is not indexed. */
    ghost predicate Stuck(index: map<Oid, nat>, cache: map<nat, Object>, pending: seq<nat>) {
      && Sound(index, cache)
      && pending != []
      && (forall at :: at in pending ==> IsEntry(at))
      && (forall at :: at in pending ==> Look(index, cache, at).Missing?)
      && (forall at {:trigger Registered(index, at)} :: IsEntry(at) && at !in pending ==> Registered(index, at))
    }

    /** What the worklist is stuck on stands for nothing: it waits, through other deltas, for an
        object that is not in the pack, or for itself. */
    lemma {:induction false} StuckOnNothing(index: map<Oid, nat>, cache: map<nat, Object>, pending: seq<nat>,
                                            chain: Chain, at: nat, obj: Object)
      requires Stuck(index, cache, pending) && CollisionFree() && at in pending
      ensures !Makes(chain, at, obj)
      decreases chain
    {
      if Makes(chain, at, obj) {
        var rest, next, base := MissingWaitsForAnEntry(index, cache, chain, at, obj);
        if next in pending {
          StuckOnNothing(index, cache, pending, rest, next, base);
        } else {
          RegisteredIsIndexed(index, rest, next, base);
        }
      }
    }

    lemma StuckIsNotResolvable(index: map<Oid, nat>, cache: map<nat, Object>, pending: seq<nat>)
      requires Stuck(index, cache, pending) && CollisionFree()
      ensures !Resolvable()
    {
      var at := pending[0];
      if Resolves(at) {
        var obj :| Means(at, obj);
        var chain :| Makes(chain, at, obj);
        StuckOnNothing(index, cache, pending, chain, at, obj);
      }
    }

    /** Whether some entry stands for `obj`. */
    ghost predicate Holds(obj: Object) {
      exists at :: IsEntry(at) && Means(at, obj)
    }

    lemma HeldIsIndexed(index: map<Oid, nat>, cache: map<nat, Object>, chain: Chain, at: nat, obj: Object)
      requires Sound(index, cache) && CollisionFree()
      requires IsEntry(at) && Makes(chain, at, obj) && Registered(index, at)
      ensures id(obj) in index && Grounded(cache, index[id(obj)]) == obj
    {
      RegisteredIsIndexed(index, chain, at, obj);
      var other := GroundedIsMeant(index, cache, id(obj));
      assert Means(at, obj) && Means(index[id(obj)], Grounded(cache, index[id(obj)]));
    }

    /** Whether `store` has exactly the objects the pack holds, each by its ID. */
    ghost predicate IsStore(store: map<Oid, Object>) {
      && (forall name :: name in store ==> id(store[name]) == name)
      && (forall obj {:trigger Holds(obj)} :: Holds(obj) <==> id(obj) in store && store[id(obj)] == obj)
    }

    /** The objects the index names, by their IDs. */
    ghost function StoreOf(index: map<Oid, nat>, cache: map<nat, Object>): map<Oid, Object>
      requires IndexIsGrounded(index, cache)
    {
      map name | name in index :: Grounded(cache, index[name])
    }

    /** Once every entry is registered, the index names exactly the objects the pack holds: what is
        found by an ID depends on the pack alone, and not on the order its deltas were tried in. */
    lemma StoreIsMeaning(index: map<Oid, nat>, cache: map<nat, Object>)
      requires Sound(index, cache) && CollisionFree()
      requires AllRegistered(index)
      ensures IsStore(StoreOf(index, cache))
    {
      var store := StoreOf(index, cache);
      forall obj
        ensures Holds(obj) <==> id(obj) in store && store[id(obj)] == obj
      {
        if id(obj) in store && store[id(obj)] == obj {
          var chain := GroundedIsMeant(index, cache, id(obj));
          assert Means(index[id(obj)], obj);
        } else if Holds(obj) {
          var at :| IsEntry(at) && Means(at, obj);
          var chain :| Makes(chain, at, obj);
          HeldIsIndexed(index, cache, chain, at, obj);
        }
      }
    }

    /** There is one such store. */
    lemma StoreIsUnique(a: map<Oid, Object>, b: map<Oid, Object>)
      requires IsStore(a) && IsStore(b)
      ensures a == b
    {
      forall name
        ensures name in a <==> name in b
        ensures name in a && name in b ==> a[name] == b[name]
      {
        if name in a {
          assert Holds(a[name]);
        }
        if name in b {
          assert Holds(b[name]);
        }
      }
    }
  }
}
