/** What a path names, said without a walk: the tables and the memory say where each accessor leads, and the
    walk of a path comes to exactly what they say. */
module PointerWalks {
  import opened BoundArrays
  import opened Bytes
  import opened DebugTables
  import opened ElementPaths
  import opened Resolvers
  import opened Subscripts
  import opened Texts
  import opened Wrappers

  // ----- Names

  /** Whether the entry `k` of a table is the last of a name. */
  ghost predicate IsLast<T>(items: seq<T>, path: T -> string, fold: string -> string, key: string, k: nat) {
    k < |items| && fold(path(items[k])) == key && forall j :: k < j < |items| ==> fold(path(items[j])) != key
  }

  lemma {:induction false} LastIsExact<T>(items: seq<T>, path: T -> string, fold: string -> string, key: string,
                                          x: T)
    ensures LastNamed(items, path, fold, key) == Some(x)
       <==> exists k: nat :: IsLast(items, path, fold, key, k) && items[k] == x
    decreases |items|
  {
    if items != [] {
      var n := |items| - 1;
      if fold(path(items[n])) == key {
        assert IsLast(items, path, fold, key, n);
      } else {
        LastIsExact(items[..n], path, fold, key, x);
        forall k: nat | k <= n
          ensures IsLast(items, path, fold, key, k) <==> IsLast(items[..n], path, fold, key, k)
        {
          if IsLast(items[..n], path, fold, key, k) {
            forall j | k < j < |items|
              ensures fold(path(items[j])) != key
            {
              assert j < n ==> items[..n][j] == items[j];
            }
          }
          if IsLast(items, path, fold, key, k) && k < n {
            assert items[..n][k] == items[k];
            forall j | k < j < n
              ensures fold(path(items[..n][j])) != key
            {
              assert items[..n][j] == items[j];
            }
          }
        }
      }
    }
  }

  // ----- What stands at an address

  /** Whether a cursor is that of a value of the type `ty` at an address: a scalar or an enumeration whole, a
      STRUCT or an array to go on into, a pointer of four bytes. */
  ghost predicate IsAt(info: DebugInfo, address: nat, ty: TypeId, global: bool, cursor: Cursor) {
    ty < |info.types|
    && match info.types[ty]
       case Scalar(t) => cursor == Value(VarLoc(address, t.SizeBytes(), t, global, None, None))
       case Enum(t) => cursor == Value(VarLoc(address, t.SizeBytes(), t, global, None, Some(ty)))
       case Opaque(size, target, byRef, conformand) =>
         size == 4 && cursor == Pointer(Memory(address), target, byRef, conformand, global)
       case Struct(_, _) => cursor == Typed(address, ty, global)
       case Array(_, _, _, _) => cursor == Typed(address, ty, global)
  }

  lemma TypedIsExact(info: DebugInfo, address: nat, ty: TypeId, global: bool, cursor: Cursor)
    ensures TypedAt(info, address, ty, global) == Some(cursor) <==> IsAt(info, address, ty, global, cursor)
  {
  }

  /** Whether a pointer holds an address: its four bytes spell it, the lowest first, or its local is it. */
  ghost predicate Holds(at: PointerAt, live: Live, b: nat) {
    match at
    case Memory(address) =>
      var code := live.read(address, 4);
      code.Some? && |code.value| >= 4 && IsSpelled(code.value[0], code.value[1], code.value[2], code.value[3], b)
    case Local(index) => live.local(index) == Some(b)
  }

  ghost predicate IsSpelled(b0: nat, b1: nat, b2: nat, b3: nat, b: nat) {
    b == b0 + 256 * b1 + 65536 * b2 + 16777216 * b3
  }

  lemma HeldIsExact(at: PointerAt, live: Live, b: nat)
    ensures Held(at, live) == Some(b) <==> Holds(at, live, b)
  {
    if at.Memory? {
      var code := live.read(at.address, 4);
      if code.Some? && |code.value| >= 4 {
        FourBytesSpell(code.value[..4]);
      }
    }
  }

  lemma FourBytesSpell(code: seq<byte>)
    requires |code| == 4
    ensures IsSpelled(code[0], code[1], code[2], code[3], LittleEndian(code))
  {
    var second, third, last := code[1..], code[2..], code[3..];
    var none: seq<byte> := [];
    assert second[1..] == third && third[1..] == last && last[1..] == none;
    assert LittleEndian(none) == 0;
    assert LittleEndian(last) == last[0] + 256 * LittleEndian(none);
    assert LittleEndian(third) == third[0] + 256 * LittleEndian(last);
    assert LittleEndian(second) == second[0] + 256 * LittleEndian(third);
  }

  /** Whether an array is the one that a pointer with no target is bound to. */
  ghost predicate IsBound(info: DebugInfo, pointer: Cursor, b: nat, arr: ArraySym) {
    && pointer.Pointer? && pointer.byRef && pointer.conformand.Some?
    && BoundArray(info.types, info.arrays, b, pointer.conformand.value) == Some(arr)
  }

  /** Whether a pointer leads to a cursor: that of its target type at the address it holds, and for a
      VAR_IN_OUT with no target that of the array it is bound to. */
  ghost predicate LeadsTo(info: DebugInfo, live: Live, pointer: Cursor, next: Cursor) {
    pointer.Pointer?
    && exists b: nat :: Holds(pointer.at, live, b) && b != 0 && PointsTo(info, pointer, b, next)
  }

  ghost predicate PointsTo(info: DebugInfo, pointer: Cursor, b: nat, next: Cursor)
    requires pointer.Pointer?
  {
    match pointer.target
    case Some(ty) => IsAt(info, b, ty, pointer.global, next)
    case None =>
      next.Elements? && IsBound(info, pointer, b, next.arr) && next.address == b && next.global == next.arr.global
  }

  /** Whether a path stops at a pointer: at one that holds 0, or at a VAR_IN_OUT of which nothing is known but
      the address it holds. */
  ghost predicate StopsAt(info: DebugInfo, live: Live, pointer: Cursor, place: Place) {
    pointer.Pointer?
    && exists b: nat :: Holds(pointer.at, live, b) && IsStop(info, pointer, b, place)
  }

  ghost predicate IsStop(info: DebugInfo, pointer: Cursor, b: nat, place: Place)
    requires pointer.Pointer?
  {
    if b == 0 then place == Null
    else
      && place == Pointee(b, None, true) && pointer.byRef && pointer.target.None?
      && forall arr :: !IsBound(info, pointer, b, arr)
  }

  lemma DerefIsExact(info: DebugInfo, live: Live, pointer: Cursor)
    requires pointer.Pointer?
    ensures match DerefPointer(info, pointer, live)
            case Onto(next) => LeadsTo(info, live, pointer, next)
            case StopAt(place) => StopsAt(info, live, pointer, place)
            case Nowhere => true
    ensures forall next :: LeadsTo(info, live, pointer, next) ==> DerefPointer(info, pointer, live) == Onto(next)
    ensures forall place :: StopsAt(info, live, pointer, place) ==> DerefPointer(info, pointer, live) == StopAt(place)
  {
    var held := Held(pointer.at, live);
    forall b: nat
      ensures held == Some(b) <==> Holds(pointer.at, live, b)
    {
      HeldIsExact(pointer.at, live, b);
    }
    if held.Some? && held.value != 0 {
      var b := held.value;
      if pointer.target.Some? {
        var there := TypedAt(info, b, pointer.target.value, pointer.global);
        forall next
          ensures PointsTo(info, pointer, b, next) <==> there == Some(next)
        {
          TypedIsExact(info, b, pointer.target.value, pointer.global, next);
        }
      } else if pointer.byRef && pointer.conformand.Some? {
        var bound := BoundArray(info.types, info.arrays, b, pointer.conformand.value);
        assert forall arr :: IsBound(info, pointer, b, arr) <==> bound == Some(arr);
      }
    }
  }

  // ----- Where accessors lead

  /** Whether the field `k` is the first of a name. */
  ghost predicate IsFirstField(fields: seq<FieldDesc>, fold: string -> string, name: string, k: nat) {
    k < |fields| && fold(fields[k].name) == fold(name)
    && forall j :: 0 <= j < k ==> fold(fields[j].name) != fold(name)
  }

  lemma {:induction false} FirstIsExact(fields: seq<FieldDesc>, fold: string -> string, name: string, field: FieldDesc)
    ensures FieldNamed(fields, fold, name) == Some(field)
       <==> exists k: nat :: IsFirstField(fields, fold, name, k) && fields[k] == field
  {
    if fields != [] {
      if fold(fields[0].name) == fold(name) {
        assert IsFirstField(fields, fold, name, 0);
      } else {
        var rest := fields[1..];
        FirstIsExact(rest, fold, name, field);
        if FieldNamed(rest, fold, name) == Some(field) {
          var k: nat :| IsFirstField(rest, fold, name, k) && rest[k] == field;
          assert forall j :: 0 < j < |fields| ==> fields[j] == rest[j - 1];
          assert IsFirstField(fields, fold, name, k + 1) && fields[k + 1] == field;
        }
        forall k: nat | IsFirstField(fields, fold, name, k) && fields[k] == field
          ensures FieldNamed(rest, fold, name) == Some(field)
        {
          assert forall j :: 0 <= j < |rest| ==> rest[j] == fields[j + 1];
          assert IsFirstField(rest, fold, name, k - 1) && rest[k - 1] == field;
        }
      }
    }
  }

  /** The one field that is the first of a name, if any. */
  lemma FirstOf(fields: seq<FieldDesc>, fold: string -> string, name: string) returns (k: nat)
    ensures forall j: nat :: IsFirstField(fields, fold, name, j) <==> j == k < |fields|
    ensures FieldNamed(fields, fold, name) == if k < |fields| then Some(fields[k]) else None
  {
    k := |fields|;
    var field := FieldNamed(fields, fold, name);
    if field.Some? {
      FirstIsExact(fields, fold, name, field.value);
      k :| IsFirstField(fields, fold, name, k) && fields[k] == field.value;
    }
    forall j: nat | IsFirstField(fields, fold, name, j)
      ensures j == k
    {
      FirstIsExact(fields, fold, name, fields[j]);
    }
  }

  /** Whether the first accessors are the subscripts of an element, one for each dimension and in its bounds,
      the element is `at`, and `rest` is what follows them. */
  ghost predicate ChoosesElement(dims: seq<Dim>, stride: nat, address: nat, toks: seq<Access>, at: nat,
                                 rest: seq<Access>)
  {
    && 1 <= |dims| <= |toks| && rest == toks[|dims|..] && at < U32_LIMIT
    && exists subs :: InBounds(dims, subs) && toks[..|dims|] == Indices(subs)
                      && at == address + FlatIndex(dims, subs) * stride
  }

  lemma ElementIsChosen(dims: seq<Dim>, stride: nat, address: nat, toks: seq<Access>, pos: nat, at: nat)
    requires dims != [] && Inhabited(dims) && Product(dims) < U32_LIMIT && pos <= |toks|
    ensures (&& FlattenFrom(dims, toks, pos, 0).Some?
             && Displaced(address, FlattenFrom(dims, toks, pos, 0).value, stride) == Some(at))
       <==> |dims| <= |toks| - pos && ChoosesElement(dims, stride, address, toks[pos..], at, toks[pos + |dims|..])
  {
    var left := toks[pos..];
    FlattenIsExact(dims, toks, pos);
    forall subs | InBounds(dims, subs)
      ensures SubsAt(dims, toks, pos) == Some(subs) <==> |dims| <= |left| && left[..|dims|] == Indices(subs)
    {
      SubsAtStand(dims, toks, pos, subs);
      if StandAt(dims, toks, pos, subs) {
        assert forall i :: 0 <= i < |dims| ==> left[..|dims|][i] == toks[pos + i];
      }
      if |dims| <= |left| && left[..|dims|] == Indices(subs) {
        assert forall i :: 0 <= i < |dims| ==> toks[pos + i] == left[..|dims|][i];
      }
    }
    var found := SubsAt(dims, toks, pos);
    if found.Some? {
      var flat := FlatIndex(dims, found.value);
      AtLeast(flat, 0, stride);
      assert Displaced(address, flat, stride) == Some(at) <==> at == address + flat * stride < U32_LIMIT;
      assert left[|dims|..] == toks[pos + |dims|..];
    }
  }

  // ----- What a path names

  /** Whether a cursor leads on to another. A member or an element takes its accessors; a pointer takes a `^`,
      and a VAR_IN_OUT leads on with none. */
  ghost predicate GoesOn(info: DebugInfo, live: Live, cursor: Cursor, toks: seq<Access>, next: Cursor,
                         rest: seq<Access>)
  {
    match cursor
    case Value(_) => false
    case Pointer(_, _, byRef, _, _) =>
      && LeadsTo(info, live, cursor, next)
      && if toks != [] && toks[0].Deref? then rest == toks[1..] else byRef && rest == toks
    case Typed(address, ty, global) =>
      ty < |info.types|
      && (match info.types[ty]
          case Struct(_, fields) => ChoosesMember(info, fields, address, toks, global, next, rest)
          case Array(dims, _, stride, elem) =>
            exists at: nat :: ChoosesElement(dims, stride, address, toks, at, rest)
                              && IsAt(info, at, elem, global, next)
          case _ => false)
    case Elements(arr, address, global) =>
      exists at: nat :: ChoosesElement(arr.dimensions, arr.elemSize, address, toks, at, rest)
                        && IsElementAt(info, arr, at, global, next)
  }

  /** Whether the first accessor is the name of a member. */
  ghost predicate ChoosesMember(info: DebugInfo, fields: seq<FieldDesc>, address: nat, toks: seq<Access>, global: bool,
                                next: Cursor, rest: seq<Access>)
  {
    && toks != [] && toks[0].Field? && rest == toks[1..]
    && exists k: nat :: IsFirstField(fields, info.fold, toks[0].name, k)
                        && address + fields[k].offset < U32_LIMIT
                        && IsAt(info, address + fields[k].offset, fields[k].ty, global, next)
  }

  /** Whether a cursor is that of an element of an array variable: by its entry, or else the scalar it is. */
  ghost predicate IsElementAt(info: DebugInfo, arr: ArraySym, at: nat, global: bool, next: Cursor) {
    match arr.elemType
    case Some(ty) => IsAt(info, at, ty, global, next)
    case None =>
      && arr.elemTy.Some?
      && next == Value(VarLoc(at, arr.elemTy.value.SizeBytes(), arr.elemTy.value, global, None, None))
  }

  /** Whether a path stops at a cursor: at its end, or at a pointer it cannot go through. */
  ghost predicate EndsAt(info: DebugInfo, live: Live, cursor: Cursor, toks: seq<Access>, place: Place) {
    match cursor
    case Value(loc) => toks == [] && place == ValueAt(loc)
    case Typed(address, ty, _) => toks == [] && place == Aggregate(address, ty)
    case Elements(arr, address, _) => toks == [] && place == WholeArray(arr.(address := address))
    case Pointer(at, target, byRef, _, _) =>
      if byRef || (toks != [] && toks[0].Deref?) then StopsAt(info, live, cursor, place)
      else
        && toks == []
        && exists b: nat :: Holds(at, live, b) && place == if b == 0 then Null else Pointee(b, target, false)
  }

  /** Whether the accessors after a cursor name a place, `n` steps on at most. */
  ghost predicate NamesIn(info: DebugInfo, live: Live, cursor: Cursor, toks: seq<Access>, place: Place, n: nat)
    decreases n
  {
    || EndsAt(info, live, cursor, toks, place)
    || (n > 0
        && exists next, rest :: GoesOn(info, live, cursor, toks, next, rest)
                                && NamesIn(info, live, next, rest, place, n - 1))
  }

  // ----- The walk comes to it

  /** The elements of an array a walk is at can be counted. */
  ghost predicate IsSound(cursor: Cursor) {
    cursor.Elements? ==>
      && cursor.arr.dimensions != [] && Inhabited(cursor.arr.dimensions) && Product(cursor.arr.dimensions) < U32_LIMIT
  }

  lemma BoundIsSound(info: DebugInfo, pointer: Cursor, b: nat, next: Cursor)
    requires IsWellFormed(info) && next.Elements? && IsBound(info, pointer, b, next.arr)
    ensures IsSound(next)
  {
    var of := pointer.conformand.value;
    var found := AllFound(info.types, info.arrays, b, of)[0];
    assert forall i :: 0 <= i < |info.arrays| ==> info.arrays[i] in info.arrays;
    var arr := AllFoundFit(info.types, info.arrays, b, of, found);
  }

  lemma LeadIsSound(info: DebugInfo, live: Live, pointer: Cursor, next: Cursor)
    requires IsWellFormed(info) && LeadsTo(info, live, pointer, next)
    ensures IsSound(next)
  {
    if next.Elements? {
      var b: nat :| Holds(pointer.at, live, b) && b != 0 && PointsTo(info, pointer, b, next);
      BoundIsSound(info, pointer, b, next);
    }
  }

  lemma MemberIsOf(info: DebugInfo, fields: seq<FieldDesc>, address: nat, toks: seq<Access>, global: bool,
                   next: Cursor, rest: seq<Access>, k: nat)
    requires toks != [] && toks[0].Field? && k < |fields| && IsFirstField(fields, info.fold, toks[0].name, k)
    ensures ChoosesMember(info, fields, address, toks, global, next, rest)
       <==> && rest == toks[1..] && address + fields[k].offset < U32_LIMIT
            && IsAt(info, address + fields[k].offset, fields[k].ty, global, next)
  {
    forall j: nat | IsFirstField(fields, info.fold, toks[0].name, j)
      ensures j == k
    {
    }
  }

  /** What a walk finds of a member. */
  function MemberCursor(info: DebugInfo, fields: seq<FieldDesc>, address: nat, name: string, global: bool)
    : Option<Cursor>
  {
    var field :- FieldNamed(fields, info.fold, name);
    var at :- Checked32(address + field.offset);
    TypedAt(info, at, field.ty, global)
  }

  lemma MemberIsExact(info: DebugInfo, fields: seq<FieldDesc>, address: nat, toks: seq<Access>, global: bool,
                      next: Cursor, rest: seq<Access>)
    requires toks != [] && toks[0].Field?
    ensures ChoosesMember(info, fields, address, toks, global, next, rest)
       <==> rest == toks[1..] && MemberCursor(info, fields, address, toks[0].name, global) == Some(next)
  {
    var k := FirstOf(fields, info.fold, toks[0].name);
    if k < |fields| {
      var at, part := address + fields[k].offset, fields[k].ty;
      MemberIsOf(info, fields, address, toks, global, next, rest, k);
      TypedIsExact(info, at, part, global, next);
      assert MemberCursor(info, fields, address, toks[0].name, global)
          == if at < U32_LIMIT then TypedAt(info, at, part, global) else None;
    }
  }

  /** The element the accessors from `pos` on choose. */
  function Chosen(dims: seq<Dim>, stride: nat, address: nat, toks: seq<Access>, pos: nat): Option<nat> {
    var flat :- FlattenFrom(dims, toks, pos, 0);
    Displaced(address, flat, stride)
  }

  ghost predicate IsChosen(dims: seq<Dim>, stride: nat, address: nat, toks: seq<Access>, pos: nat, at: nat,
                           rest: seq<Access>)
  {
    && Chosen(dims, stride, address, toks, pos) == Some(at)
    && pos + |dims| <= |toks| && rest == toks[pos + |dims|..]
  }

  lemma ChosenIsExact(dims: seq<Dim>, stride: nat, address: nat, toks: seq<Access>, pos: nat)
    requires dims != [] && Inhabited(dims) && Product(dims) < U32_LIMIT && pos < |toks|
    ensures forall at: nat, rest ::
              ChoosesElement(dims, stride, address, toks[pos..], at, rest)
              <==> IsChosen(dims, stride, address, toks, pos, at, rest)
  {
    FlattenTakesTokens(dims, toks, pos, 0);
    forall at: nat, rest
      ensures ChoosesElement(dims, stride, address, toks[pos..], at, rest)
         <==> IsChosen(dims, stride, address, toks, pos, at, rest)
    {
      ElementIsChosen(dims, stride, address, toks, pos, at);
      if pos + |dims| <= |toks| {
        assert toks[pos..][|dims|..] == toks[pos + |dims|..];
      }
    }
  }

  /** What is left of a walk, and where it goes on. */
  ghost predicate IsStep(step: Stride, toks: seq<Access>, next: Cursor, rest: seq<Access>) {
    step.Going? && step.cursor == next && step.pos <= |toks| && rest == toks[step.pos..]
  }

  lemma StructGoesOn(info: DebugInfo, live: Live, cursor: Cursor, toks: seq<Access>, pos: nat, next: Cursor,
                     rest: seq<Access>)
    requires pos < |toks| && cursor.Typed? && cursor.ty < |info.types| && info.types[cursor.ty].Struct?
    ensures GoesOn(info, live, cursor, toks[pos..], next, rest)
       <==> IsStep(WalkStep(info, cursor, toks, pos, live), toks, next, rest)
  {
    var left := toks[pos..];
    if left[0].Field? {
      MemberIsExact(info, info.types[cursor.ty].fields, cursor.address, left, cursor.global, next, rest);
      assert left[1..] == toks[pos + 1..];
    }
  }

  lemma ArrayGoesOn(info: DebugInfo, live: Live, cursor: Cursor, toks: seq<Access>, pos: nat, next: Cursor,
                    rest: seq<Access>)
    requires pos < |toks| && AreLaidOut(info.types) && cursor.Typed? && cursor.ty < |info.types|
    requires info.types[cursor.ty].Array?
    ensures GoesOn(info, live, cursor, toks[pos..], next, rest)
       <==> IsStep(WalkStep(info, cursor, toks, pos, live), toks, next, rest)
  {
    assert IsLaidOut(info.types, cursor.ty);
    var dims, stride := info.types[cursor.ty].dimensions, info.types[cursor.ty].elemSize;
    ChosenIsExact(dims, stride, cursor.address, toks, pos);
    FlattenTakesTokens(dims, toks, pos, 0);
    var at := Chosen(dims, stride, cursor.address, toks, pos);
    if at.Some? {
      assert IsChosen(dims, stride, cursor.address, toks, pos, at.value, toks[pos + |dims|..]);
      TypedIsExact(info, at.value, info.types[cursor.ty].elem, cursor.global, next);
    }
  }

  lemma ElementsGoOn(info: DebugInfo, live: Live, cursor: Cursor, toks: seq<Access>, pos: nat, next: Cursor,
                     rest: seq<Access>)
    requires pos < |toks| && cursor.Elements? && IsSound(cursor)
    ensures GoesOn(info, live, cursor, toks[pos..], next, rest)
       <==> IsStep(WalkStep(info, cursor, toks, pos, live), toks, next, rest)
  {
    var arr, dims := cursor.arr, cursor.arr.dimensions;
    ChosenIsExact(dims, arr.elemSize, cursor.address, toks, pos);
    FlattenTakesTokens(dims, toks, pos, 0);
    var at := Chosen(dims, arr.elemSize, cursor.address, toks, pos);
    if at.Some? {
      assert IsChosen(dims, arr.elemSize, cursor.address, toks, pos, at.value, toks[pos + |dims|..]);
      if arr.elemType.Some? {
        TypedIsExact(info, at.value, arr.elemType.value, cursor.global, next);
      }
    }
  }

  /** A cursor leads on exactly where a step of the walk goes. */
  lemma StepIsExact(info: DebugInfo, live: Live, cursor: Cursor, toks: seq<Access>, pos: nat, next: Cursor,
                    rest: seq<Access>)
    requires pos < |toks| && IsWellFormed(info) && IsSound(cursor)
    ensures GoesOn(info, live, cursor, toks[pos..], next, rest)
       <==> IsStep(WalkStep(info, cursor, toks, pos, live), toks, next, rest)
  {
    match cursor
    case Value(_) =>
    case Typed(_, ty, _) =>
      if ty < |info.types| {
        if info.types[ty].Struct? {
          StructGoesOn(info, live, cursor, toks, pos, next, rest);
        } else if info.types[ty].Array? {
          ArrayGoesOn(info, live, cursor, toks, pos, next, rest);
        }
      }
    case Elements(_, _, _) => ElementsGoOn(info, live, cursor, toks, pos, next, rest);
    case Pointer(_, _, _, _, _) =>
      DerefIsExact(info, live, cursor);
      assert toks[pos..][1..] == toks[pos + 1..];
  }

  /** It stops exactly where a step does. */
  lemma StopIsExact(info: DebugInfo, live: Live, cursor: Cursor, toks: seq<Access>, pos: nat, place: Place)
    requires pos < |toks|
    ensures EndsAt(info, live, cursor, toks[pos..], place)
       <==> WalkStep(info, cursor, toks, pos, live) == Done(Some(place))
  {
    if cursor.Pointer? {
      DerefIsExact(info, live, cursor);
    }
  }

  /** At the end of the accessors, only a VAR_IN_OUT leads on. */
  lemma NothingGoesOn(info: DebugInfo, live: Live, cursor: Cursor, next: Cursor, rest: seq<Access>)
    requires GoesOn(info, live, cursor, [], next, rest)
    ensures cursor.Pointer? && cursor.byRef && LeadsTo(info, live, cursor, next) && rest == []
  {
  }

  lemma NextIsSound(info: DebugInfo, live: Live, cursor: Cursor, toks: seq<Access>, next: Cursor, rest: seq<Access>)
    requires IsWellFormed(info) && GoesOn(info, live, cursor, toks, next, rest)
    ensures IsSound(next)
  {
    if cursor.Pointer? {
      LeadIsSound(info, live, cursor, next);
    }
  }

  lemma EndIsExact(info: DebugInfo, live: Live, cursor: Cursor, place: Place)
    requires IsWalkable(info.types) && !(cursor.Pointer? && cursor.byRef)
    ensures EndsAt(info, live, cursor, [], place) <==> Finish(info, cursor, live) == Some(place)
  {
    if cursor.Pointer? {
      var held := Held(cursor.at, live);
      forall b: nat
        ensures held == Some(b) <==> Holds(cursor.at, live, b)
      {
        HeldIsExact(cursor.at, live, b);
      }
    }
  }

  /** A walk comes to a place the accessors name. */
  lemma {:induction false} WalkNames(info: DebugInfo, live: Live, cursor: Cursor, toks: seq<Access>, pos: nat,
                                     place: Place)
    returns (n: nat)
    requires IsWellFormed(info) && IsSound(cursor) && pos <= |toks|
    requires WalkFrom(info, cursor, toks, pos, live) == Some(place)
    ensures NamesIn(info, live, cursor, toks[pos..], place, n)
    decreases |toks| - pos, Rank(info.types, cursor)
  {
    n := 0;
    var left := toks[pos..];
    if pos < |toks| {
      var step := WalkStep(info, cursor, toks, pos, live);
      if step.Going? {
        StrideMoves(info, cursor, toks, pos, live);
        StepIsExact(info, live, cursor, toks, pos, step.cursor, toks[step.pos..]);
        NextIsSound(info, live, cursor, left, step.cursor, toks[step.pos..]);
        var more := WalkNames(info, live, step.cursor, toks, step.pos, place);
        n := more + 1;
      } else {
        StopIsExact(info, live, cursor, toks, pos, place);
      }
    } else if cursor.Pointer? && cursor.byRef {
      DerefIsExact(info, live, cursor);
      var through := DerefPointer(info, cursor, live);
      if through.Onto? {
        DerefIsLower(info, cursor, live);
        LeadIsSound(info, live, cursor, through.cursor);
        assert GoesOn(info, live, cursor, left, through.cursor, left);
        var more := WalkNames(info, live, through.cursor, toks, pos, place);
        n := more + 1;
      }
    } else {
      EndIsExact(info, live, cursor, place);
    }
  }

  /** A place the accessors name is the one a walk comes to. */
  lemma {:induction false} NamedIsWalked(info: DebugInfo, live: Live, cursor: Cursor, toks: seq<Access>, pos: nat,
                                         place: Place, n: nat)
    requires IsWellFormed(info) && IsSound(cursor) && pos <= |toks|
    requires NamesIn(info, live, cursor, toks[pos..], place, n)
    ensures WalkFrom(info, cursor, toks, pos, live) == Some(place)
    decreases n
  {
    var left := toks[pos..];
    if EndsAt(info, live, cursor, left, place) {
      if pos < |toks| {
        StopIsExact(info, live, cursor, toks, pos, place);
      } else if cursor.Pointer? && cursor.byRef {
        DerefIsExact(info, live, cursor);
      } else {
        EndIsExact(info, live, cursor, place);
      }
    } else {
      var next, rest :| GoesOn(info, live, cursor, left, next, rest) && NamesIn(info, live, next, rest, place, n - 1);
      NextIsSound(info, live, cursor, left, next, rest);
      if pos < |toks| {
        StepIsExact(info, live, cursor, toks, pos, next, rest);
        var step := WalkStep(info, cursor, toks, pos, live);
        StrideMoves(info, cursor, toks, pos, live);
        NamedIsWalked(info, live, next, toks, step.pos, place, n - 1);
      } else {
        NothingGoesOn(info, live, cursor, next, rest);
        DerefIsExact(info, live, cursor);
        DerefIsLower(info, cursor, live);
        NamedIsWalked(info, live, next, toks, pos, place, n - 1);
      }
    }
  }

  // ----- Where a path starts

  /** Whether a table names a stem. */
  ghost predicate IsNamed(info: DebugInfo, key: string) {
    || (exists x :: x in info.symbols && info.fold(x.path) == key)
    || (exists x :: x in info.pointers && info.fold(x.path) == key)
    || (exists x :: x in info.arrays && info.fold(x.path) == key)
  }

  /** Whether a cursor is that of the stem of a name: of the last leaf of it, of the last pointer when there is no
      leaf, of the last array when there is neither. */
  ghost predicate IsNamedBy(info: DebugInfo, key: string, cursor: Cursor) {
    match cursor
    case Value(loc) =>
      exists k: nat :: IsLast(info.symbols, SymbolPath, info.fold, key, k) && IsLeaf(info.symbols[k], loc)
    case Pointer(at, target, byRef, conformand, global) =>
      && !(exists x :: x in info.symbols && info.fold(x.path) == key)
      && exists k: nat :: IsLast(info.pointers, PointerPath, info.fold, key, k)
                          && var p := info.pointers[k];
                             && p.address < U32_LIMIT && at == Memory(p.address) && target == p.target
                             && byRef == p.byRef && conformand == p.conformand && global == p.global
    case Elements(arr, address, global) =>
      && !(exists x :: x in info.symbols && info.fold(x.path) == key)
      && !(exists x :: x in info.pointers && info.fold(x.path) == key)
      && address == arr.address < U32_LIMIT && global == arr.global
      && exists k: nat :: IsLast(info.arrays, ArrayPath, info.fold, key, k) && info.arrays[k] == arr
    case Typed(_, _, _) => false
  }

  /** Whether a location is that of a leaf of the table. */
  ghost predicate IsLeaf(leaf: Symbol, loc: VarLoc) {
    && loc.address == leaf.address < U32_LIMIT && loc.size == leaf.size && loc.ty == leaf.ty
    && loc.global == leaf.global && loc.bits == leaf.bits && loc.named == leaf.namedType
  }

  lemma StemIsExact(info: DebugInfo, stem: string, cursor: Cursor)
    ensures StemCursor(info, stem) == Some(Some(cursor)) <==> IsNamedBy(info, info.fold(stem), cursor)
    ensures StemCursor(info, stem).Some? <==> IsNamed(info, info.fold(stem))
  {
    var key := info.fold(stem);
    var symbol, pointer := SymbolNamed(info.symbols, info.fold, key), PointerNamed(info.pointers, info.fold, key);
    match cursor
    case Value(loc) =>
      if symbol.Some? {
        LastIsExact(info.symbols, SymbolPath, info.fold, key, symbol.value);
      }
      forall k: nat | IsLast(info.symbols, SymbolPath, info.fold, key, k)
        ensures symbol == Some(info.symbols[k])
      {
        LastIsExact(info.symbols, SymbolPath, info.fold, key, info.symbols[k]);
      }
    case Pointer(_, _, _, _, _) =>
      if pointer.Some? {
        LastIsExact(info.pointers, PointerPath, info.fold, key, pointer.value);
      }
      forall k: nat | IsLast(info.pointers, PointerPath, info.fold, key, k)
        ensures pointer == Some(info.pointers[k])
      {
        LastIsExact(info.pointers, PointerPath, info.fold, key, info.pointers[k]);
      }
    case Elements(arr, _, _) => LastIsExact(info.arrays, ArrayPath, info.fold, key, arr);
    case Typed(_, _, _) =>
  }

  /** Whether a path may be cut before its character `i`, or there is none. */
  ghost predicate IsCutAt(path: string, i: nat) {
    i == |path| || (0 < i < |path| && path[i] in ['.', '[', '^'])
  }

  /** Whether the first `i` characters of a path are its stem, and the cursor that of the stem: no longer ones
      are named by a table. */
  ghost predicate IsStem(info: DebugInfo, path: string, i: nat, cursor: Cursor) {
    && 0 < i && IsCutAt(path, i) && IsNamedBy(info, info.fold(path[..i]), cursor)
    && forall j: nat :: i < j && IsCutAt(path, j) ==> !IsNamed(info, info.fold(path[..j]))
  }

  lemma {:induction false} ModuleStemIs(info: DebugInfo, path: string, i: nat)
    returns (at: nat)
    requires i <= |path| && ModuleStem(info, path, i).Some?
    requires forall j: nat :: i < j && IsCutAt(path, j) ==> !IsNamed(info, info.fold(path[..j]))
    ensures at <= |path| && ModuleStem(info, path, i).value.1 == path[at..]
    ensures IsStem(info, path, at, ModuleStem(info, path, i).value.0)
    decreases i
  {
    if IsStemEnd(path, i) && StemCursor(info, path[..i]).Some? {
      at := i;
      StemIsExact(info, path[..i], StemCursor(info, path[..i]).value.value);
    } else {
      if IsCutAt(path, i) {
        StemIsExact(info, path[..i], Typed(0, 0, false));
      }
      at := ModuleStemIs(info, path, i - 1);
    }
  }

  lemma {:induction false} StemIsModuleStem(info: DebugInfo, path: string, at: nat, cursor: Cursor, i: nat)
    requires IsStem(info, path, at, cursor) && at <= i <= |path|
    ensures ModuleStem(info, path, i) == Some((cursor, path[at..]))
    decreases i
  {
    StemIsExact(info, path[..i], cursor);
    if i > at {
      StemIsModuleStem(info, path, at, cursor, i - 1);
    }
  }

  /** Whether a path names a place: it has a stem, and what follows the stem are accessors that name the place
      from there. */
  ghost predicate Names(info: DebugInfo, live: Live, path: string, place: Place) {
    exists i: nat, cursor, toks, n: nat ::
      IsStem(info, path, i, cursor) && i <= |path| && Tokenize(path[i..]) == Some(toks)
      && NamesIn(info, live, cursor, toks, place, n)
  }

  lemma StemIsSound(info: DebugInfo, path: string, i: nat, cursor: Cursor)
    requires IsWellFormed(info) && IsStem(info, path, i, cursor)
    ensures IsSound(cursor)
  {
    if cursor.Elements? {
      assert cursor.arr in info.arrays;
    }
  }

  /** A path is followed to a place if and only if it names it, in any memory. */
  lemma FollowIsExact(info: DebugInfo, live: Live, path: string, place: Place)
    requires IsWellFormed(info)
    ensures Follow(info, path, live) == Some(place) <==> Names(info, live, path, place)
  {
    if Follow(info, path, live) == Some(place) {
      var i := ModuleStemIs(info, path, |path|);
      var cursor := ModuleStem(info, path, |path|).value.0;
      StemIsSound(info, path, i, cursor);
      var toks := Tokenize(path[i..]).value;
      var n := WalkNames(info, live, cursor, toks, 0, place);
      assert toks[0..] == toks;
    }
    if Names(info, live, path, place) {
      var i: nat, cursor, toks, n: nat :|
        IsStem(info, path, i, cursor) && i <= |path| && Tokenize(path[i..]) == Some(toks)
        && NamesIn(info, live, cursor, toks, place, n);
      StemIsModuleStem(info, path, i, cursor, |path|);
      StemIsSound(info, path, i, cursor);
      assert toks[0..] == toks;
      NamedIsWalked(info, live, cursor, toks, 0, place, n);
    }
  }

  // ----- Through the tables alone

  /** Whether accessors lead from a value of the type `ty` to a scalar or an enumeration in it, through STRUCTs and
      arrays only. */
  ghost predicate IsLocatedIn(info: DebugInfo, ty: TypeId, address: nat, global: bool, toks: seq<Access>, loc: VarLoc)
    decreases |toks|
  {
    ty < |info.types|
    && (match info.types[ty]
        case Scalar(_) => toks == [] && IsAt(info, address, ty, global, Value(loc))
        case Enum(_) => toks == [] && IsAt(info, address, ty, global, Value(loc))
        case Opaque(_, _, _, _) => false
        case Struct(_, fields) =>
          && toks != [] && toks[0].Field?
          && exists k: nat :: IsFirstField(fields, info.fold, toks[0].name, k)
                              && address + fields[k].offset < U32_LIMIT
                              && IsLocatedIn(info, fields[k].ty, address + fields[k].offset, global, toks[1..], loc)
        case Array(dims, _, stride, elem) =>
          exists at: nat, rest :: ChoosesElement(dims, stride, address, toks, at, rest)
                                  && IsLocatedIn(info, elem, at, global, rest, loc))
  }

  /** Whether accessors lead from an array variable to an element that is a scalar or an enumeration, or to one in
      an element. An element read whole has the stride of its array for its size. */
  ghost predicate IsElementIn(info: DebugInfo, arr: ArraySym, toks: seq<Access>, loc: VarLoc) {
    exists at: nat, rest :: ChoosesElement(arr.dimensions, arr.elemSize, arr.address, toks, at, rest)
                            && IsInElement(info, arr, at, rest, loc)
  }

  ghost predicate IsInElement(info: DebugInfo, arr: ArraySym, at: nat, rest: seq<Access>, loc: VarLoc) {
    if rest == [] then
      && arr.elemTy.Some? && loc.address == at && loc.size == arr.elemSize && loc.ty == arr.elemTy.value
      && loc.global == arr.global && loc.bits == None
      && loc.named == if arr.elemType.Some? && IsEnum(info, arr.elemType.value) then arr.elemType else None
    else arr.elemType.Some? && IsLocatedIn(info, arr.elemType.value, at, arr.global, rest, loc)
  }

  ghost predicate IsEnum(info: DebugInfo, ty: TypeId) {
    ty < |info.types| && info.types[ty].Enum?
  }

  lemma {:induction false} LocatedIsExact(info: DebugInfo, ty: TypeId, address: nat, global: bool, toks: seq<Access>,
                                          pos: nat, loc: VarLoc)
    requires IsWellFormed(info) && pos <= |toks|
    ensures LocateFrom(info, toks, global, address, pos, ty) == Some(loc)
       <==> IsLocatedIn(info, ty, address, global, toks[pos..], loc)
    decreases |toks| - pos, 1
  {
    if ty < |info.types| {
      if info.types[ty].Struct? {
        if pos < |toks| && toks[pos].Field? {
          MemberIsLocated(info, ty, address, global, toks, pos, loc);
        }
      } else if info.types[ty].Array? && pos < |toks| {
        ElementIsLocated(info, ty, address, global, toks, pos, loc);
      }
    }
  }

  lemma MemberIsIn(info: DebugInfo, ty: TypeId, address: nat, global: bool, toks: seq<Access>, pos: nat, loc: VarLoc,
                   k: nat)
    requires pos < |toks| && ty < |info.types| && info.types[ty].Struct? && toks[pos].Field?
    requires forall j: nat ::
               IsFirstField(info.types[ty].fields, info.fold, toks[pos].name, j) <==> j == k < |info.types[ty].fields|
    ensures IsLocatedIn(info, ty, address, global, toks[pos..], loc)
       <==> var fields := info.types[ty].fields;
            && k < |fields| && address + fields[k].offset < U32_LIMIT
            && IsLocatedIn(info, fields[k].ty, address + fields[k].offset, global, toks[pos + 1..], loc)
  {
    assert toks[pos..][1..] == toks[pos + 1..];
  }

  lemma MemberLocates(info: DebugInfo, ty: TypeId, address: nat, global: bool, toks: seq<Access>, pos: nat, k: nat)
    requires IsWellFormed(info) && pos < |toks| && ty < |info.types| && info.types[ty].Struct? && toks[pos].Field?
    requires var fields := info.types[ty].fields;
             FieldNamed(fields, info.fold, toks[pos].name) == if k < |fields| then Some(fields[k]) else None
    ensures var fields := info.types[ty].fields;
            LocateFrom(info, toks, global, address, pos, ty)
            == if k < |fields| && address + fields[k].offset < U32_LIMIT
               then LocateFrom(info, toks, global, address + fields[k].offset, pos + 1, fields[k].ty) else None
  {
  }

  /** Going into a member, as the tables and as the relation say it. */
  lemma MemberFound(info: DebugInfo, ty: TypeId, address: nat, global: bool, toks: seq<Access>, pos: nat, loc: VarLoc)
    returns (found: Option<(nat, TypeId)>)
    requires IsWellFormed(info) && pos < |toks| && ty < |info.types| && info.types[ty].Struct? && toks[pos].Field?
    ensures LocateFrom(info, toks, global, address, pos, ty)
         == if found.Some? then LocateFrom(info, toks, global, found.value.0, pos + 1, found.value.1) else None
    ensures IsLocatedIn(info, ty, address, global, toks[pos..], loc)
       <==> found.Some? && IsLocatedIn(info, found.value.1, found.value.0, global, toks[pos + 1..], loc)
  {
    var fields := info.types[ty].fields;
    var k := FirstOf(fields, info.fold, toks[pos].name);
    MemberIsIn(info, ty, address, global, toks, pos, loc, k);
    MemberLocates(info, ty, address, global, toks, pos, k);
    found := if k < |fields| && address + fields[k].offset < U32_LIMIT
             then Some((address + fields[k].offset, fields[k].ty)) else None;
  }

  lemma {:induction false} MemberIsLocated(info: DebugInfo, ty: TypeId, address: nat, global: bool, toks: seq<Access>,
                                           pos: nat, loc: VarLoc)
    requires IsWellFormed(info) && pos < |toks| && ty < |info.types| && info.types[ty].Struct? && toks[pos].Field?
    ensures LocateFrom(info, toks, global, address, pos, ty) == Some(loc)
       <==> IsLocatedIn(info, ty, address, global, toks[pos..], loc)
    decreases |toks| - pos, 0
  {
    var found := MemberFound(info, ty, address, global, toks, pos, loc);
    if found.Some? {
      LocatedIsExact(info, found.value.1, found.value.0, global, toks, pos + 1, loc);
    }
  }

  /** Going into an element, as the tables and as the relation say it. */
  lemma ElementLocates(info: DebugInfo, ty: TypeId, address: nat, global: bool, toks: seq<Access>, pos: nat)
    returns (at: Option<nat>)
    requires IsWellFormed(info) && pos < |toks| && ty < |info.types| && info.types[ty].Array?
    ensures var dims := info.types[ty].dimensions;
            && at == Chosen(dims, info.types[ty].elemSize, address, toks, pos)
            && (at.Some? ==> pos + |dims| <= |toks|)
            && LocateFrom(info, toks, global, address, pos, ty)
               == if at.Some? then LocateFrom(info, toks, global, at.value, pos + |dims|, info.types[ty].elem) else None
  {
    var dims := info.types[ty].dimensions;
    FlattenTakesTokens(dims, toks, pos, 0);
    at := Chosen(dims, info.types[ty].elemSize, address, toks, pos);
  }

  lemma ElementIsIn(info: DebugInfo, ty: TypeId, address: nat, global: bool, toks: seq<Access>, pos: nat, loc: VarLoc)
    requires AreLaidOut(info.types) && pos < |toks| && ty < |info.types| && info.types[ty].Array?
    ensures IsLocatedIn(info, ty, address, global, toks[pos..], loc)
       <==> var dims := info.types[ty].dimensions;
            var at := Chosen(dims, info.types[ty].elemSize, address, toks, pos);
            && at.Some? && pos + |dims| <= |toks|
            && IsLocatedIn(info, info.types[ty].elem, at.value, global, toks[pos + |dims|..], loc)
  {
    assert IsLaidOut(info.types, ty);
    var dims, stride := info.types[ty].dimensions, info.types[ty].elemSize;
    ChosenIsExact(dims, stride, address, toks, pos);
    var at := Chosen(dims, stride, address, toks, pos);
    if at.Some? && pos + |dims| <= |toks| {
      assert IsChosen(dims, stride, address, toks, pos, at.value, toks[pos + |dims|..]);
    }
  }

  lemma {:induction false} ElementIsLocated(info: DebugInfo, ty: TypeId, address: nat, global: bool, toks: seq<Access>,
                                            pos: nat, loc: VarLoc)
    requires IsWellFormed(info) && pos < |toks| && ty < |info.types| && info.types[ty].Array?
    ensures LocateFrom(info, toks, global, address, pos, ty) == Some(loc)
       <==> IsLocatedIn(info, ty, address, global, toks[pos..], loc)
    decreases |toks| - pos, 0
  {
    var at := ElementLocates(info, ty, address, global, toks, pos);
    ElementIsIn(info, ty, address, global, toks, pos, loc);
    if at.Some? {
      assert IsLaidOut(info.types, ty);
      LocatedIsExact(info, info.types[ty].elem, at.value, global, toks, pos + |info.types[ty].dimensions|, loc);
    }
  }

  lemma ElementPlaceIsExact(info: DebugInfo, arr: ArraySym, toks: seq<Access>, loc: VarLoc)
    requires IsWellFormed(info) && IsArray(info.types, arr) && toks != []
    ensures LocateIn(info, arr, toks) == Some(loc) <==> IsElementIn(info, arr, toks, loc)
  {
    var dims, stride := arr.dimensions, arr.elemSize;
    assert toks[0..] == toks;
    ChosenIsExact(dims, stride, arr.address, toks, 0);
    FlattenTakesTokens(dims, toks, 0, 0);
    var at := Chosen(dims, stride, arr.address, toks, 0);
    if at.Some? {
      assert IsChosen(dims, stride, arr.address, toks, 0, at.value, toks[|dims|..]);
      if arr.elemType.Some? {
        LocatedIsExact(info, arr.elemType.value, at.value, arr.global, toks, |dims|, loc);
      }
    }
  }

  /** Whether the tables alone give a path a place: that of the last leaf of its name, or what follows its first
      `[` in the last array named before it. */
  ghost predicate HasPlace(info: DebugInfo, path: string, loc: VarLoc) {
    if exists x :: x in info.symbols && info.fold(x.path) == info.fold(path) then
      IsNamedBy(info, info.fold(path), Value(loc))
    else
      exists b: nat, k: nat, toks ::
        && b < |path| && path[b] == '[' && '[' !in path[..b]
        && IsLast(info.arrays, ArrayPath, info.fold, info.fold(path[..b]), k)
        && Tokenize(path[b..]) == Some(toks) && IsElementIn(info, info.arrays[k], toks, loc)
  }

  lemma ResolveIsExact(info: DebugInfo, path: string, loc: VarLoc)
    requires IsWellFormed(info)
    ensures Resolve(info, path) == Some(loc) <==> HasPlace(info, path, loc)
  {
    StemIsExact(info, path, Value(loc));
    var bracket := Find(path, '[');
    if SymbolNamed(info.symbols, info.fold, info.fold(path)).None? && bracket.Some? {
      var key := info.fold(path[..bracket.value]);
      var arr := ArrayNamed(info.arrays, info.fold, key);
      var toks := Tokenize(path[bracket.value..]);
      if arr.Some? && toks.Some? {
        LastIsExact(info.arrays, ArrayPath, info.fold, key, arr.value);
        ElementPlaceIsExact(info, arr.value, toks.value, loc);
      }
      forall k: nat | IsLast(info.arrays, ArrayPath, info.fold, key, k)
        ensures arr == Some(info.arrays[k])
      {
        LastIsExact(info.arrays, ArrayPath, info.fold, key, info.arrays[k]);
      }
    }
  }
}
