/** From a path to the place of a value, twice: `Resolve` goes through the tables alone, `Follow` walks
    the path a step at a time and goes through pointers too. */
module Resolvers {
  import opened BoundArrays
  import opened Bytes
  import opened Chains
  import opened DebugTables
  import opened ElementPaths
  import opened Subscripts
  import opened Texts
  import opened Wrappers

  /** The tables of a module, and the folding of case its paths are looked up by. */
  datatype DebugInfo = DebugInfo(
    symbols: seq<Symbol>,
    arrays: seq<ArraySym>,
    pointers: seq<PointerSym>,
    types: seq<TypeDesc>,
    fold: string -> string
  )

  /** What a running module answers: bytes of its memory, and the pointers in its wasm locals. */
  datatype Live = Live(read: (nat, nat) -> Option<seq<byte>>, local: nat -> Option<nat>)

  // ----- Names. A later entry of a table replaces an earlier one of the same name.

  function LastNamed<T(==)>(items: seq<T>, path: T -> string, fold: string -> string, key: string): (r: Option<T>)
    ensures r.Some? ==> r.value in items && fold(path(r.value)) == key
    ensures r.None? ==> forall x :: x in items ==> fold(path(x)) != key
    decreases |items|
  {
    if items == [] then None
    else
      var last := items[|items| - 1];
      if fold(path(last)) == key then Some(last) else LastNamed(items[..|items| - 1], path, fold, key)
  }

  function SymbolPath(symbol: Symbol): string {
    symbol.path
  }

  function ArrayPath(arr: ArraySym): string {
    arr.path
  }

  function PointerPath(pointer: PointerSym): string {
    pointer.path
  }

  function SymbolNamed(symbols: seq<Symbol>, fold: string -> string, key: string): Option<Symbol> {
    LastNamed(symbols, SymbolPath, fold, key)
  }

  function ArrayNamed(arrays: seq<ArraySym>, fold: string -> string, key: string): Option<ArraySym> {
    LastNamed(arrays, ArrayPath, fold, key)
  }

  function PointerNamed(pointers: seq<PointerSym>, fold: string -> string, key: string): Option<PointerSym> {
    LastNamed(pointers, PointerPath, fold, key)
  }

  /** The first field of a name. */
  function FieldNamed(fields: seq<FieldDesc>, fold: string -> string, name: string): (r: Option<FieldDesc>)
    ensures r.Some? ==> r.value in fields
  {
    if fields == [] then None
    else if fold(fields[0].name) == fold(name) then Some(fields[0])
    else FieldNamed(fields[1..], fold, name)
  }

  // ----- Through the tables alone

  /** Where a walk into an element is: `On` at a type with some accessors left, `Over` at its end. */
  datatype Locating = On(address: nat, pos: nat, ty: TypeId) | Over(found: Option<VarLoc>)

  /** One step into the layout of a type. */
  function LocateStep(info: DebugInfo, toks: seq<Access>, global: bool, address: nat, pos: nat, ty: TypeId): Locating {
    if ty >= |info.types| then Over(None)
    else match info.types[ty]
      case Scalar(t) =>
        Over(if pos == |toks| then Some(VarLoc(address, t.SizeBytes(), t, global, None, None)) else None)
      case Enum(t) =>
        Over(if pos == |toks| then Some(VarLoc(address, t.SizeBytes(), t, global, None, Some(ty))) else None)
      case Opaque(_, _, _, _) => Over(None)
      case Struct(_, fields) =>
        if pos >= |toks| || !toks[pos].Field? then Over(None)
        else
          var field := FieldNamed(fields, info.fold, toks[pos].name);
          if field.None? || Checked32(address + field.value.offset).None? then Over(None)
          else On(address + field.value.offset, pos + 1, field.value.ty)
      case Array(dims, _, stride, elem) =>
        var flat := FlattenFrom(dims, toks, pos, 0);
        if flat.None? || Displaced(address, flat.value, stride).None? then Over(None)
        else On(Displaced(address, flat.value, stride).value, pos + |dims|, elem)
  }

  /** Every array of the table has a dimension, and so takes an accessor. */
  predicate HasDimensions(types: seq<TypeDesc>) {
    forall id :: 0 <= id < |types| && types[id].Array? ==> types[id].dimensions != []
  }

  /** Where an entry leads without an accessor: from an array with no dimension to its element. */
  function LayoutLink(ty: TypeDesc): Option<TypeId> {
    if ty.Array? && ty.dimensions == [] then Some(ty.elem) else None
  }

  function LayoutLinks(types: seq<TypeDesc>): (links: Links)
    ensures |links| == |types| && forall id :: 0 <= id < |types| ==> links[id] == LayoutLink(types[id])
  {
    seq(|types|, id requires 0 <= id < |types| => LayoutLink(types[id]))
  }

  /** The chains of arrays with no dimension end. */
  predicate IsLocatable(types: seq<TypeDesc>) {
    AllEnd(LayoutLinks(types))
  }

  /** How many of them there are from an entry on. */
  function LayoutLength(types: seq<TypeDesc>, ty: TypeId): nat
    requires IsLocatable(types)
  {
    if ty < |types| then
      assert Ends(LayoutLinks(types), ty);
      Length(LayoutLinks(types), ty)
    else 0
  }

  lemma {:induction false} FlattenTakesTokens(dims: seq<Dim>, toks: seq<Access>, pos: nat, flat: int)
    ensures FlattenFrom(dims, toks, pos, flat).Some? && dims != [] ==> pos + |dims| <= |toks| && toks[pos].Index?
    decreases |dims|
  {
    if |dims| > 1 && pos < |toks| && toks[pos].Index? && FlattenOne(dims[0], toks[pos].sub, flat).Some? {
      FlattenTakesTokens(dims[1..], toks, pos + 1, FlattenOne(dims[0], toks[pos].sub, flat).value);
    }
  }

  lemma StepTakesTokens(info: DebugInfo, toks: seq<Access>, global: bool, address: nat, pos: nat, ty: TypeId)
    requires HasDimensions(info.types) && LocateStep(info, toks, global, address, pos, ty).On?
    ensures pos < LocateStep(info, toks, global, address, pos, ty).pos <= |toks|
  {
    if info.types[ty].Array? {
      FlattenTakesTokens(info.types[ty].dimensions, toks, pos, 0);
    }
  }

  /** A step takes an accessor, or goes on along a chain of arrays with no dimension. */
  lemma StepMoves(info: DebugInfo, toks: seq<Access>, global: bool, address: nat, pos: nat, ty: TypeId)
    requires IsLocatable(info.types) && pos <= |toks| && LocateStep(info, toks, global, address, pos, ty).On?
    ensures var step := LocateStep(info, toks, global, address, pos, ty);
            && pos <= step.pos <= |toks|
            && (step.pos == pos ==> LayoutLength(info.types, step.ty) < LayoutLength(info.types, ty))
  {
    if info.types[ty].Array? {
      FlattenTakesTokens(info.types[ty].dimensions, toks, pos, 0);
      if info.types[ty].dimensions == [] {
        var links := LayoutLinks(info.types);
        assert Ends(links, ty);
        NextIsShorter(links, ty);
      }
    }
  }

  function LocateFrom(info: DebugInfo, toks: seq<Access>, global: bool, address: nat, pos: nat, ty: TypeId)
    : Option<VarLoc>
    requires IsLocatable(info.types) && pos <= |toks|
    decreases |toks| - pos, LayoutLength(info.types, ty)
  {
    match LocateStep(info, toks, global, address, pos, ty)
    case Over(found) => found
    case On(next, more, elem) =>
      StepMoves(info, toks, global, address, pos, ty);
      LocateFrom(info, toks, global, next, more, elem)
  }

  /** Whether a run of the loop ends in some number of turns. */
  ghost predicate LocateEndsIn(info: DebugInfo, toks: seq<Access>, global: bool, address: nat, pos: nat, ty: TypeId,
      turns: nat)
    decreases turns
  {
    turns > 0
    && match LocateStep(info, toks, global, address, pos, ty)
       case Over(_) => true
       case On(next, more, elem) => LocateEndsIn(info, toks, global, next, more, elem, turns - 1)
  }

  ghost predicate LocateEnds(info: DebugInfo, toks: seq<Access>, global: bool, address: nat, pos: nat, ty: TypeId) {
    exists turns: nat :: LocateEndsIn(info, toks, global, address, pos, ty, turns)
  }

  lemma {:induction false} LocateDoesEnd(info: DebugInfo, toks: seq<Access>, global: bool, address: nat, pos: nat,
      ty: TypeId) returns (turns: nat)
    requires IsLocatable(info.types) && pos <= |toks|
    ensures LocateEndsIn(info, toks, global, address, pos, ty, turns)
    decreases |toks| - pos, LayoutLength(info.types, ty)
  {
    var step := LocateStep(info, toks, global, address, pos, ty);
    if step.Over? {
      turns := 1;
    } else {
      StepMoves(info, toks, global, address, pos, ty);
      var rest := LocateDoesEnd(info, toks, global, step.address, step.pos, step.ty);
      turns := rest + 1;
    }
  }

  /** With no accessor, the turns of a run are links of a chain. */
  lemma {:induction false} TurnsAreLinks(info: DebugInfo, ty: TypeId, turns: nat)
    requires LocateEndsIn(info, [], false, 0, 0, ty, turns)
    ensures EndsIn(LayoutLinks(info.types), ty, turns)
    decreases turns
  {
    if NextOf(LayoutLinks(info.types), ty).Some? {
      assert LocateStep(info, [], false, 0, 0, ty) == On(0, 0, info.types[ty].elem);
      TurnsAreLinks(info, info.types[ty].elem, turns - 1);
    }
  }

  /** Every run of the loop ends, whatever the accessors, the address and the type it starts at, if and
      only if every chain of arrays with no dimension does. */
  lemma LocateEndsExactly(info: DebugInfo)
    ensures (forall toks, global, address: nat, pos: nat, ty: TypeId ::
               pos <= |toks| ==> LocateEnds(info, toks, global, address, pos, ty))
       <==> IsLocatable(info.types)
  {
    if IsLocatable(info.types) {
      forall toks, global, address: nat, pos: nat, ty: TypeId | pos <= |toks|
        ensures LocateEnds(info, toks, global, address, pos, ty)
      {
        var turns := LocateDoesEnd(info, toks, global, address, pos, ty);
      }
    }
    if forall toks, global, address: nat, pos: nat, ty: TypeId ::
         pos <= |toks| ==> LocateEnds(info, toks, global, address, pos, ty) {
      forall ty | 0 <= ty < |info.types|
        ensures Ends(LayoutLinks(info.types), ty)
      {
        assert LocateEnds(info, [], false, 0, 0, ty);
        var turns: nat :| LocateEndsIn(info, [], false, 0, 0, ty, turns);
        TurnsAreLinks(info, ty, turns);
        EndsSoon(LayoutLinks(info.types), ty, turns);
      }
    }
  }

  /** The element of `arr` the accessors name, or a member of it. */
  function LocateIn(info: DebugInfo, arr: ArraySym, toks: seq<Access>): Option<VarLoc>
    requires IsLocatable(info.types)
  {
    var flat :- FlattenFrom(arr.dimensions, toks, 0, 0);
    var address :- Displaced(arr.address, flat, arr.elemSize);
    if |arr.dimensions| == |toks| then
      var t :- arr.elemTy;
      var named := if arr.elemType.Some? && arr.elemType.value < |info.types| && info.types[arr.elemType.value].Enum?
                   then arr.elemType else None;
      Some(VarLoc(address, arr.elemSize, t, arr.global, None, named))
    else
      var ty :- arr.elemType;
      FlattenTakesTokens(arr.dimensions, toks, 0, 0);
      LocateFrom(info, toks, arr.global, address, |arr.dimensions|, ty)
  }

  method LocateInArray(info: DebugInfo, arr: ArraySym, rest: string) returns (r: Option<VarLoc>)
    requires IsLocatable(info.types)
    ensures r == match Tokenize(rest) case None => None case Some(toks) => LocateIn(info, arr, toks)
  {
    var toks :- TokenizeAccessors(rest);
    var flat, pos := FlattenIndices(arr.dimensions, toks, 0);
    if flat.None? {
      return None;
    }
    var address :- Displaced(arr.address, flat.value, arr.elemSize);
    FlattenTakesTokens(arr.dimensions, toks, 0, 0);
    if pos == |toks| {
      if arr.elemTy.None? {
        return None;
      }
      var named := if arr.elemType.Some? && arr.elemType.value < |info.types| && info.types[arr.elemType.value].Enum?
                   then arr.elemType else None;
      return Some(VarLoc(address, arr.elemSize, arr.elemTy.value, arr.global, None, named));
    }
    if arr.elemType.None? {
      return None;
    }
    var ty := arr.elemType.value;
    while true
      invariant pos <= |toks| && 0 <= address
      invariant LocateIn(info, arr, toks) == LocateFrom(info, toks, arr.global, address, pos, ty)
      decreases |toks| - pos, LayoutLength(info.types, ty)
    {
      match LocateStep(info, toks, arr.global, address, pos, ty) {
        case Over(found) => return found;
        case On(next, more, elem) =>
          StepMoves(info, toks, arr.global, address, pos, ty);
          address, pos, ty := next, more, elem;
      }
    }
  }

  function LeafLoc(symbol: Symbol): Option<VarLoc> {
    var address :- Checked32(symbol.address);
    Some(VarLoc(address, symbol.size, symbol.ty, symbol.global, symbol.bits, symbol.namedType))
  }

  /** Where a path's value lives: a leaf of the table, or what follows the first `[` in the array its
      stem names. */
  function Resolve(info: DebugInfo, path: string): Option<VarLoc>
    requires IsLocatable(info.types)
  {
    var symbol := SymbolNamed(info.symbols, info.fold, info.fold(path));
    if symbol.Some? then LeafLoc(symbol.value)
    else
      var bracket :- Find(path, '[');
      var arr :- ArrayNamed(info.arrays, info.fold, info.fold(path[..bracket]));
      var toks :- Tokenize(path[bracket..]);
      LocateIn(info, arr, toks)
  }

  // ----- A step at a time, through pointers

  datatype PointerAt = Memory(address: nat) | Local(index: nat)

  datatype Cursor =
    | Value(loc: VarLoc)
    | Typed(address: nat, ty: TypeId, global: bool)
    | Elements(arr: ArraySym, address: nat, global: bool)
    | Pointer(at: PointerAt, target: Option<TypeId>, byRef: bool, conformand: Option<Conformand>, global: bool)

  /** What a path names once the pointers on it are followed. */
  datatype Place =
    | ValueAt(loc: VarLoc)
    | Pointee(address: nat, target: Option<TypeId>, byRef: bool)
    | Aggregate(address: nat, ty: TypeId)
    | WholeArray(arr: ArraySym)
    | Null

  /** The cursor at `address` for a type; nothing for a type with nothing at it. */
  function TypedAt(info: DebugInfo, address: nat, ty: TypeId, global: bool): Option<Cursor> {
    if ty >= |info.types| then None
    else match info.types[ty]
      case Scalar(t) => Some(Value(VarLoc(address, t.SizeBytes(), t, global, None, None)))
      case Enum(t) => Some(Value(VarLoc(address, t.SizeBytes(), t, global, None, Some(ty))))
      case Opaque(size, target, byRef, conformand) =>
        if size == 4 then Some(Pointer(Memory(address), target, byRef, conformand, global)) else None
      case _ => Some(Typed(address, ty, global))
  }

  /** The address a pointer holds. */
  function Held(at: PointerAt, live: Live): Option<nat> {
    match at
    case Memory(address) =>
      var code :- live.read(address, 4);
      if |code| < 4 then None else Some(LittleEndian(code[..4]))
    case Local(index) => live.local(index)
  }

  /** Through a pointer: the cursor at what it points at, or the place the path stops at. */
  datatype Through = Onto(cursor: Cursor) | StopAt(place: Place) | Nowhere

  function DerefPointer(info: DebugInfo, pointer: Cursor, live: Live): Through
    requires pointer.Pointer?
  {
    match Held(pointer.at, live)
    case None => Nowhere
    case Some(address) =>
      if address == 0 then StopAt(Null)
      else if pointer.target.Some? then
        (match TypedAt(info, address, pointer.target.value, pointer.global)
         case None => Nowhere
         case Some(cursor) => Onto(cursor))
      else if !pointer.byRef then Nowhere
      else
        var bound := if pointer.conformand.None? then None
                     else BoundArray(info.types, info.arrays, address, pointer.conformand.value);
        if bound.Some? then Onto(Elements(bound.value, address, bound.value.global))
        else StopAt(Pointee(address, None, true))
  }

  /** One step of a walk: a cursor further on, or the end of it. */
  datatype Stride = Going(cursor: Cursor, pos: nat) | Done(place: Option<Place>)

  function Toward(cursor: Option<Cursor>, pos: nat): Stride {
    if cursor.None? then Done(None) else Going(cursor.value, pos)
  }

  function Across(through: Through, pos: nat): Stride {
    match through
    case Onto(cursor) => Going(cursor, pos)
    case StopAt(place) => Done(Some(place))
    case Nowhere => Done(None)
  }

  function WalkStep(info: DebugInfo, cursor: Cursor, toks: seq<Access>, pos: nat, live: Live): Stride
    requires pos < |toks|
  {
    match cursor
    case Value(_) => Done(None)
    case Pointer(_, _, byRef, _, _) =>
      if toks[pos].Deref? then Across(DerefPointer(info, cursor, live), pos + 1)
      else if byRef then Across(DerefPointer(info, cursor, live), pos)
      else Done(None)
    case Typed(address, ty, global) =>
      if ty >= |info.types| then Done(None)
      else if toks[pos].Field? && info.types[ty].Struct? then
        var field := FieldNamed(info.types[ty].fields, info.fold, toks[pos].name);
        if field.None? || Checked32(address + field.value.offset).None? then Done(None)
        else Toward(TypedAt(info, address + field.value.offset, field.value.ty, global), pos + 1)
      else if toks[pos].Index? && info.types[ty].Array? then
        var flat := FlattenFrom(info.types[ty].dimensions, toks, pos, 0);
        if flat.None? || Displaced(address, flat.value, info.types[ty].elemSize).None? then Done(None)
        else
          var at := Displaced(address, flat.value, info.types[ty].elemSize).value;
          Toward(TypedAt(info, at, info.types[ty].elem, global), pos + |info.types[ty].dimensions|)
      else Done(None)
    case Elements(arr, address, global) =>
      if !toks[pos].Index? then Done(None)
      else
        var flat := FlattenFrom(arr.dimensions, toks, pos, 0);
        if flat.None? || Displaced(address, flat.value, arr.elemSize).None? then Done(None)
        else
          var at := Displaced(address, flat.value, arr.elemSize).value;
          Toward(if arr.elemType.Some? then TypedAt(info, at, arr.elemType.value, global)
                 else if arr.elemTy.Some? then
                   Some(Value(VarLoc(at, arr.elemTy.value.SizeBytes(), arr.elemTy.value, global, None, None)))
                 else None,
                 pos + |arr.dimensions|)
  }

  // ----- When a walk ends

  /** Where an entry leads without an accessor: from an array with no dimension to its element, and from a
      VAR_IN_OUT to what it is bound to. */
  function WalkLink(ty: TypeDesc): Option<TypeId> {
    match ty
    case Array(dims, _, _, elem) => if dims == [] then Some(elem) else None
    case Opaque(size, target, byRef, _) => if size == 4 && byRef then target else None
    case Scalar(_) => None
    case Struct(_, _) => None
    case Enum(_) => None
  }

  function WalkLinks(types: seq<TypeDesc>): (links: Links)
    ensures |links| == |types| && forall id :: 0 <= id < |types| ==> links[id] == WalkLink(types[id])
  {
    seq(|types|, id requires 0 <= id < |types| => WalkLink(types[id]))
  }

  /** The chains of arrays with no dimension and of VAR_IN_OUTs end. */
  predicate IsWalkable(types: seq<TypeDesc>) {
    AllEnd(WalkLinks(types))
  }

  function WalkLength(types: seq<TypeDesc>, ty: TypeId): nat
    requires IsWalkable(types)
  {
    if ty < |types| then
      assert Ends(WalkLinks(types), ty);
      Length(WalkLinks(types), ty)
    else 0
  }

  lemma WalkLengthOfNext(types: seq<TypeDesc>, ty: TypeId)
    requires IsWalkable(types) && ty < |types| && WalkLink(types[ty]).Some?
    ensures WalkLength(types, WalkLink(types[ty]).value) == WalkLength(types, ty) - 1
  {
    var links := WalkLinks(types);
    assert Ends(links, ty);
    NextIsShorter(links, ty);
    assert WalkLink(types[ty]).value >= |types| ==> NextOf(links, WalkLink(types[ty]).value) == None;
  }

  /** How many steps a cursor can take with no accessor. */
  function Rank(types: seq<TypeDesc>, cursor: Cursor): nat
    requires IsWalkable(types)
  {
    match cursor
    case Value(_) => 0
    case Typed(_, ty, _) => 1 + WalkLength(types, ty)
    case Elements(arr, _, _) =>
      if arr.dimensions != [] then 0
      else if arr.elemType.Some? then 2 + WalkLength(types, arr.elemType.value) else 1
    case Pointer(_, target, byRef, _, _) =>
      if !byRef then 0 else if target.Some? then 2 + WalkLength(types, target.value) else 1
  }

  lemma TypedRank(info: DebugInfo, address: nat, ty: TypeId, global: bool)
    requires IsWalkable(info.types) && TypedAt(info, address, ty, global).Some?
    ensures Rank(info.types, TypedAt(info, address, ty, global).value) <= 1 + WalkLength(info.types, ty)
  {
    if WalkLink(info.types[ty]).Some? {
      WalkLengthOfNext(info.types, ty);
    }
  }

  lemma BoundArrayHasDimensions(types: seq<TypeDesc>, arrays: seq<ArraySym>, address: nat, of: Conformand)
    ensures BoundArray(types, arrays, address, of).Some?
        ==> BoundArray(types, arrays, address, of).value.dimensions != []
  {
    if BoundArray(types, arrays, address, of).Some? {
      AllFoundHaveDimensions(types, arrays, address, of, AllFound(types, arrays, address, of)[0]);
    }
  }

  lemma {:induction false} AllFoundHaveDimensions(types: seq<TypeDesc>, arrays: seq<ArraySym>, address: nat,
                                                  of: Conformand, found: ArraySym)
    requires found in AllFound(types, arrays, address, of)
    ensures found.dimensions != []
    decreases |arrays|
  {
    var arr := arrays[|arrays| - 1];
    if found in FoundIn(types, arr, address, of) {
      FoundHaveDimensions(types, ShapeOf(arr), address - arr.address, of, arr.global, NESTING, found);
    } else {
      AllFoundHaveDimensions(types, arrays[..|arrays| - 1], address, of, found);
    }
  }

  lemma {:induction false} FoundHaveDimensions(types: seq<TypeDesc>, shape: Shape, offset: nat, of: Conformand,
                                               global: bool, depth: nat, found: ArraySym)
    requires found in ArraysFrom(types, shape, offset, of, global, depth)
    ensures found.dimensions != []
    decreases depth, 0
  {
    var extents := Extents(shape.dimensions).value;
    if !(RowStarts(types, shape, extents, offset, of) && found == Row(types, shape, of, global)) {
      FoundInHaveDimensions(types, shape.elemType.value, offset % shape.elemSize, of, global, depth - 1, found);
    }
  }

  lemma {:induction false} FoundInHaveDimensions(types: seq<TypeDesc>, ty: TypeId, offset: nat, of: Conformand,
                                                 global: bool, depth: nat, found: ArraySym)
    requires found in ArraysIn(types, ty, offset, of, global, depth)
    ensures found.dimensions != []
    decreases depth, 1
  {
    match types[ty]
    case Struct(_, fields) =>
      var member := MemberAt(fields, offset).value;
      FoundInHaveDimensions(types, member.ty, offset - member.offset, of, global, depth - 1, found);
    case Array(dims, _, stride, elem) =>
      FoundHaveDimensions(types, Shape(dims, stride, None, Some(elem)), offset, of, global, depth, found);
  }

  /** What a VAR_IN_OUT is bound to has fewer steps before it than the VAR_IN_OUT. */
  lemma DerefIsLower(info: DebugInfo, cursor: Cursor, live: Live)
    requires IsWalkable(info.types) && cursor.Pointer? && cursor.byRef && DerefPointer(info, cursor, live).Onto?
    ensures Rank(info.types, DerefPointer(info, cursor, live).cursor) < Rank(info.types, cursor)
  {
    var address := Held(cursor.at, live).value;
    if cursor.target.Some? {
      TypedRank(info, address, cursor.target.value, cursor.global);
    } else {
      BoundArrayHasDimensions(info.types, info.arrays, address, cursor.conformand.value);
    }
  }

  /** A step takes an accessor, or goes on along a chain of arrays with no dimension and VAR_IN_OUTs. */
  lemma StrideMoves(info: DebugInfo, cursor: Cursor, toks: seq<Access>, pos: nat, live: Live)
    requires pos < |toks| && IsWalkable(info.types) && WalkStep(info, cursor, toks, pos, live).Going?
    ensures var next := WalkStep(info, cursor, toks, pos, live);
            && pos <= next.pos <= |toks|
            && (next.pos == pos ==> Rank(info.types, next.cursor) < Rank(info.types, cursor))
  {
    match cursor
    case Pointer(_, _, byRef, _, _) =>
      if byRef && !toks[pos].Deref? {
        DerefIsLower(info, cursor, live);
      }
    case Typed(address, ty, global) =>
      if info.types[ty].Array? {
        var dims := info.types[ty].dimensions;
        FlattenTakesTokens(dims, toks, pos, 0);
        if dims == [] {
          WalkLengthOfNext(info.types, ty);
          TypedRank(info, address, info.types[ty].elem, global);
        }
      }
    case Elements(arr, address, global) =>
      FlattenTakesTokens(arr.dimensions, toks, pos, 0);
      if arr.dimensions == [] && arr.elemType.Some? {
        TypedRank(info, address, arr.elemType.value, global);
      }
    case Value(_) =>
  }

  function WalkFrom(info: DebugInfo, cursor: Cursor, toks: seq<Access>, pos: nat, live: Live): Option<Place>
    requires IsWalkable(info.types) && pos <= |toks|
    decreases |toks| - pos, Rank(info.types, cursor)
  {
    if pos == |toks| then Finish(info, cursor, live)
    else match WalkStep(info, cursor, toks, pos, live)
      case Done(place) => place
      case Going(next, more) =>
        StrideMoves(info, cursor, toks, pos, live);
        WalkFrom(info, next, toks, more, live)
  }

  /** Where a walk ends. */
  function Finish(info: DebugInfo, cursor: Cursor, live: Live): Option<Place>
    requires IsWalkable(info.types)
    decreases Rank(info.types, cursor)
  {
    match cursor
    case Value(loc) => Some(ValueAt(loc))
    case Typed(address, ty, _) => Some(Aggregate(address, ty))
    case Elements(arr, address, _) => Some(WholeArray(arr.(address := address)))
    case Pointer(at, target, byRef, _, _) =>
      if byRef then
        match DerefPointer(info, cursor, live)
        case Onto(next) =>
          DerefIsLower(info, cursor, live);
          Finish(info, next, live)
        case StopAt(place) => Some(place)
        case Nowhere => None
      else
        var address :- Held(at, live);
        if address == 0 then Some(Null) else Some(Pointee(address, target, false))
  }

  method Walk(info: DebugInfo, start: Cursor, toks: seq<Access>, live: Live) returns (r: Option<Place>)
    requires IsWalkable(info.types)
    ensures r == WalkFrom(info, start, toks, 0, live)
  {
    var cursor, pos := start, 0;
    while pos < |toks|
      invariant 0 <= pos <= |toks|
      invariant WalkFrom(info, start, toks, 0, live) == WalkFrom(info, cursor, toks, pos, live)
      decreases |toks| - pos, Rank(info.types, cursor)
    {
      match WalkStep(info, cursor, toks, pos, live) {
        case Done(place) => return place;
        case Going(next, more) =>
          StrideMoves(info, cursor, toks, pos, live);
          cursor, pos := next, more;
      }
    }
    return Finish(info, cursor, live);
  }

  /** Whether a run of the walk ends in some number of turns: those of its loop, and then those through the
      VAR_IN_OUTs it ends at. */
  ghost predicate WalkEndsIn(info: DebugInfo, cursor: Cursor, toks: seq<Access>, pos: nat, live: Live, turns: nat)
    decreases turns
  {
    && turns > 0
    && if pos < |toks| then
         match WalkStep(info, cursor, toks, pos, live)
         case Done(_) => true
         case Going(next, more) => WalkEndsIn(info, next, toks, more, live, turns - 1)
       else if cursor.Pointer? && cursor.byRef then
         match DerefPointer(info, cursor, live)
         case Onto(next) => WalkEndsIn(info, next, toks, pos, live, turns - 1)
         case StopAt(_) => true
         case Nowhere => true
       else true
  }

  ghost predicate WalkEnds(info: DebugInfo, cursor: Cursor, toks: seq<Access>, pos: nat, live: Live) {
    exists turns: nat :: WalkEndsIn(info, cursor, toks, pos, live, turns)
  }

  lemma {:induction false} WalkDoesEnd(info: DebugInfo, cursor: Cursor, toks: seq<Access>, pos: nat, live: Live)
    returns (turns: nat)
    requires IsWalkable(info.types) && pos <= |toks|
    ensures WalkEndsIn(info, cursor, toks, pos, live, turns)
    decreases |toks| - pos, Rank(info.types, cursor)
  {
    turns := 1;
    if pos < |toks| {
      var stride := WalkStep(info, cursor, toks, pos, live);
      if stride.Going? {
        StrideMoves(info, cursor, toks, pos, live);
        var rest := WalkDoesEnd(info, stride.cursor, toks, stride.pos, live);
        turns := rest + 1;
      }
    } else if cursor.Pointer? && cursor.byRef && DerefPointer(info, cursor, live).Onto? {
      DerefIsLower(info, cursor, live);
      var rest := WalkDoesEnd(info, DerefPointer(info, cursor, live).cursor, toks, pos, live);
      turns := rest + 1;
    }
  }

  /** A memory that holds 1 at every address. */
  function Ones(): Live {
    Live((address, size) => Some([1, 0, 0, 0]), index => Some(1))
  }

  lemma OnesAreHeld(at: PointerAt)
    ensures Held(at, Ones()) == Some(1)
  {
    var code: seq<byte> := [1, 0, 0, 0];
    assert code[..4] == code;
    OneIsCoded(code);
  }

  lemma OneIsCoded(code: seq<byte>)
    requires code == [1, 0, 0, 0]
    ensures LittleEndian(code) == 1
  {
    var second, third, last := code[1..], code[2..], code[3..];
    var none: seq<byte> := [];
    assert second[1..] == third && third[1..] == last && last[1..] == none;
    assert LittleEndian(none) == 0;
    assert LittleEndian(last) == last[0] + 256 * LittleEndian(none);
    assert LittleEndian(third) == third[0] + 256 * LittleEndian(last);
    assert LittleEndian(second) == second[0] + 256 * LittleEndian(third);
  }

  /** There, with an accessor that an array with no dimension does not take, the turns of a run are links of
      a chain. */
  lemma {:induction false} StridesAreLinks(info: DebugInfo, ty: TypeId, global: bool, turns: nat)
    requires TypedAt(info, 1, ty, global).Some?
    requires WalkEndsIn(info, TypedAt(info, 1, ty, global).value, [Index(0)], 0, Ones(), turns)
    ensures EndsIn(WalkLinks(info.types), ty, turns)
    decreases turns
  {
    var cursor := TypedAt(info, 1, ty, global).value;
    if NextOf(WalkLinks(info.types), ty).Some? {
      var next := WalkLink(info.types[ty]).value;
      if cursor.Pointer? {
        OnesAreHeld(cursor.at);
      }
      assert WalkStep(info, cursor, [Index(0)], 0, Ones()) == Toward(TypedAt(info, 1, next, global), 0);
      if TypedAt(info, 1, next, global).Some? {
        StridesAreLinks(info, next, global, turns - 1);
      } else {
        assert NextOf(WalkLinks(info.types), next) == None;
      }
    }
  }

  /** Every run of the walk ends, whatever the cursor, the accessors and the memory, if and only if every
      chain of arrays with no dimension and VAR_IN_OUTs does. */
  lemma WalkEndsExactly(info: DebugInfo)
    ensures (forall cursor, toks, pos: nat, live :: pos <= |toks| ==> WalkEnds(info, cursor, toks, pos, live))
       <==> IsWalkable(info.types)
  {
    if IsWalkable(info.types) {
      forall cursor, toks, pos: nat, live | pos <= |toks|
        ensures WalkEnds(info, cursor, toks, pos, live)
      {
        var turns := WalkDoesEnd(info, cursor, toks, pos, live);
      }
    }
    if forall cursor, toks, pos: nat, live :: pos <= |toks| ==> WalkEnds(info, cursor, toks, pos, live) {
      forall ty | 0 <= ty < |info.types|
        ensures Ends(WalkLinks(info.types), ty)
      {
        if WalkLink(info.types[ty]).Some? {
          var cursor := TypedAt(info, 1, ty, false).value;
          assert WalkEnds(info, cursor, [Index(0)], 0, Ones());
          var turns: nat :| WalkEndsIn(info, cursor, [Index(0)], 0, Ones(), turns);
          StridesAreLinks(info, ty, false, turns);
          EndsSoon(WalkLinks(info.types), ty, turns);
        } else {
          assert NextOf(WalkLinks(info.types), ty) == None;
        }
      }
    }
  }

  /** The cursor a table gives a stem. */
  function StemCursor(info: DebugInfo, stem: string): Option<Option<Cursor>> {
    var key := info.fold(stem);
    var symbol := SymbolNamed(info.symbols, info.fold, key);
    if symbol.Some? then
      Some(if LeafLoc(symbol.value).None? then None else Some(Value(LeafLoc(symbol.value).value)))
    else
      var pointer := PointerNamed(info.pointers, info.fold, key);
      if pointer.Some? then
        var p := pointer.value;
        Some(if Checked32(p.address).None? then None
             else Some(Pointer(Memory(p.address), p.target, p.byRef, p.conformand, p.global)))
      else
        var arr :- ArrayNamed(info.arrays, info.fold, key);
        Some(if Checked32(arr.address).None? then None else Some(Elements(arr, arr.address, arr.global)))
  }

  /** Where a path may split into a stem and its accessors. */
  predicate IsStemEnd(path: string, i: nat) {
    0 < i <= |path| && (i == |path| || IsCut(path[i]))
  }

  /** The longest stem of `path` a table names, of at most `i` characters, and what follows it. */
  function ModuleStem(info: DebugInfo, path: string, i: nat): Option<(Cursor, string)>
    requires i <= |path|
    decreases i
  {
    if i == 0 then None
    else if IsStemEnd(path, i) && StemCursor(info, path[..i]).Some? then
      var cursor :- StemCursor(info, path[..i]).value;
      Some((cursor, path[i..]))
    else ModuleStem(info, path, i - 1)
  }

  /** What `path` names once the pointers on it are followed, as far as `live` reads the module. */
  function Follow(info: DebugInfo, path: string, live: Live): Option<Place>
    requires IsWalkable(info.types)
  {
    var start :- ModuleStem(info, path, |path|);
    var toks :- Tokenize(start.1);
    WalkFrom(info, start.0, toks, 0, live)
  }

  // ----- The two agree

  /** No name of a table holds a bracket, and folding a name keeps its brackets. */
  ghost predicate HasPlainNames(info: DebugInfo) {
    && (forall s :: '[' in s <==> '[' in info.fold(s))
    && (forall x {:trigger x in info.symbols} :: x in info.symbols ==> '[' !in x.path)
    && (forall x {:trigger x in info.pointers} :: x in info.pointers ==> '[' !in x.path)
    && (forall x {:trigger x in info.arrays} :: x in info.arrays ==> '[' !in x.path)
  }

  /** The tables describe what can be in memory. */
  ghost predicate IsWellFormed(info: DebugInfo) {
    && IsWalkable(info.types) && IsLocatable(info.types) && HasDimensions(info.types) && AreLaidOut(info.types)
    && forall x {:trigger x in info.arrays} :: x in info.arrays ==> IsArray(info.types, x)
  }

  /** A step into the layout of a type is a step of the walk. */
  lemma StepsMatch(info: DebugInfo, toks: seq<Access>, global: bool, address: nat, pos: nat, ty: TypeId, live: Live)
    requires HasDimensions(info.types) && pos < |toks| && LocateStep(info, toks, global, address, pos, ty).On?
    ensures TypedAt(info, address, ty, global) == Some(Typed(address, ty, global))
    ensures var step := LocateStep(info, toks, global, address, pos, ty);
            WalkStep(info, Typed(address, ty, global), toks, pos, live)
            == Toward(TypedAt(info, step.address, step.ty, global), step.pos)
  {
    if info.types[ty].Array? {
      FlattenTakesTokens(info.types[ty].dimensions, toks, pos, 0);
    }
  }

  /** A walk from a type comes to the value the layout gives. */
  lemma {:induction false} WalkLocates(info: DebugInfo, toks: seq<Access>, global: bool, address: nat, pos: nat,
                                       ty: TypeId, live: Live)
    requires IsWalkable(info.types) && IsLocatable(info.types) && HasDimensions(info.types) && pos <= |toks|
    requires LocateFrom(info, toks, global, address, pos, ty).Some?
    ensures TypedAt(info, address, ty, global).Some?
    ensures WalkFrom(info, TypedAt(info, address, ty, global).value, toks, pos, live)
         == Some(ValueAt(LocateFrom(info, toks, global, address, pos, ty).value))
    decreases |toks| - pos
  {
    var step := LocateStep(info, toks, global, address, pos, ty);
    if step.On? {
      StepTakesTokens(info, toks, global, address, pos, ty);
      StepsMatch(info, toks, global, address, pos, ty, live);
      WalkLocates(info, toks, global, step.address, step.pos, step.ty, live);
    }
  }

  /** So does one from an array variable, the size aside, which the tables alone say is the stride when an
      element is read whole. */
  lemma WalkLocatesIn(info: DebugInfo, arr: ArraySym, toks: seq<Access>, live: Live)
    requires IsWalkable(info.types) && IsLocatable(info.types) && HasDimensions(info.types) && IsArray(info.types, arr)
    requires LocateIn(info, arr, toks).Some?
    ensures WalkFrom(info, Elements(arr, arr.address, arr.global), toks, 0, live).Some?
    ensures var place := WalkFrom(info, Elements(arr, arr.address, arr.global), toks, 0, live).value;
            var loc := LocateIn(info, arr, toks).value;
            place.ValueAt? && place.loc == loc.(size := loc.ty.SizeBytes())
  {
    FlattenTakesTokens(arr.dimensions, toks, 0, 0);
    var at := Displaced(arr.address, FlattenFrom(arr.dimensions, toks, 0, 0).value, arr.elemSize).value;
    if |arr.dimensions| < |toks| {
      WalkLocates(info, toks, arr.global, at, |arr.dimensions|, arr.elemType.value, live);
      LocatedSize(info, toks, arr.global, at, |arr.dimensions|, arr.elemType.value);
    }
  }

  lemma {:induction false} StemIsBeforeTheBracket(info: DebugInfo, path: string, bracket: nat, i: nat)
    requires HasPlainNames(info) && bracket < i <= |path| && path[bracket] == '['
    ensures ModuleStem(info, path, i) == ModuleStem(info, path, bracket)
    decreases i
  {
    assert path[..i][bracket] == '[';
    if bracket < i - 1 {
      StemIsBeforeTheBracket(info, path, bracket, i - 1);
    }
  }

  lemma ArrayStem(info: DebugInfo, stem: string, arr: ArraySym)
    requires ArrayNamed(info.arrays, info.fold, info.fold(stem)) == Some(arr) && arr.address < U32_LIMIT
    requires SymbolNamed(info.symbols, info.fold, info.fold(stem)).None?
    requires PointerNamed(info.pointers, info.fold, info.fold(stem)).None?
    ensures StemCursor(info, stem) == Some(Some(Elements(arr, arr.address, arr.global)))
  {
  }

  /** What a path names before its first bracket: all of it when it has none. */
  function StemOf(path: string): string {
    match Find(path, '[')
    case None => path
    case Some(bracket) => path[..bracket]
  }

  /** Whether a path is a leaf, or its stem is not empty and names no leaf and no pointer. */
  predicate HasOwnStem(info: DebugInfo, path: string) {
    var stem := StemOf(path);
    && path != ""
    && (|| SymbolNamed(info.symbols, info.fold, info.fold(path)).Some?
        || (&& stem != ""
            && SymbolNamed(info.symbols, info.fold, info.fold(stem)).None?
            && PointerNamed(info.pointers, info.fold, info.fold(stem)).None?))
  }

  /** Whether the walk gives a path the place that the tables alone give it: the same address, type,
      enumeration, bits and scope, whatever the memory holds; and the same size for a leaf, the size of
      the type for an element or a member of one. */
  predicate Agree(info: DebugInfo, path: string, live: Live)
    requires IsWalkable(info.types) && IsLocatable(info.types)
  {
    var found, place := Resolve(info, path), Follow(info, path, live);
    && found.Some? && place.Some? && place.value.ValueAt?
    && place.value.loc
       == if SymbolNamed(info.symbols, info.fold, info.fold(path)).Some? then found.value
          else found.value.(size := found.value.ty.SizeBytes())
  }

  lemma {:induction false} LocatedSize(info: DebugInfo, toks: seq<Access>, global: bool, address: nat, pos: nat,
                                       ty: TypeId)
    requires HasDimensions(info.types) && pos <= |toks| && LocateFrom(info, toks, global, address, pos, ty).Some?
    ensures var loc := LocateFrom(info, toks, global, address, pos, ty).value; loc.size == loc.ty.SizeBytes()
    decreases |toks| - pos
  {
    var step := LocateStep(info, toks, global, address, pos, ty);
    if step.On? {
      StepTakesTokens(info, toks, global, address, pos, ty);
      LocatedSize(info, toks, global, step.address, step.pos, step.ty);
    }
  }

  /** A memory that cannot be read. */
  function Unreadable(): Live {
    Live((address, size) => None, index => None)
  }

  /** On well-formed tables the two agree, in every memory, on a path that the tables alone give a place, if
      and only if the path is a leaf, or its stem is not empty and names no leaf and no pointer. */
  lemma TwoResolversAgree(info: DebugInfo, path: string)
    requires IsWellFormed(info) && HasPlainNames(info) && Resolve(info, path).Some?
    ensures (forall live :: Agree(info, path, live)) <==> HasOwnStem(info, path)
  {
    if SymbolNamed(info.symbols, info.fold, info.fold(path)).Some? {
      forall live
        ensures Agree(info, path, live) <==> path != ""
      {
        LeafAgrees(info, path, live);
      }
      assert Agree(info, path, Unreadable()) <==> path != "";
    } else if HasOwnStem(info, path) {
      forall live
        ensures Agree(info, path, live)
      {
        ElementAgrees(info, path, live);
      }
    } else {
      if StemOf(path) == "" || SymbolNamed(info.symbols, info.fold, info.fold(StemOf(path))).Some? {
        ShadowedStem(info, path, Unreadable());
      } else {
        PointerStem(info, path);
      }
      assert !Agree(info, path, Unreadable());
    }
  }

  lemma LeafAgrees(info: DebugInfo, path: string, live: Live)
    requires IsWalkable(info.types) && IsLocatable(info.types)
    requires SymbolNamed(info.symbols, info.fold, info.fold(path)).Some? && Resolve(info, path).Some?
    ensures Agree(info, path, live) <==> path != ""
  {
    if path != "" {
      assert path[..|path|] == path && path[|path|..] == "";
    }
  }

  lemma ElementAgrees(info: DebugInfo, path: string, live: Live)
    requires IsWellFormed(info) && HasPlainNames(info) && Resolve(info, path).Some? && HasOwnStem(info, path)
    requires SymbolNamed(info.symbols, info.fold, info.fold(path)).None?
    ensures Agree(info, path, live)
  {
    var bracket := Find(path, '[').value;
    var arr := ArrayNamed(info.arrays, info.fold, info.fold(path[..bracket])).value;
    var toks := Tokenize(path[bracket..]).value;
    assert arr in info.arrays;
    assert arr.address < U32_LIMIT by {
      assert IsArray(info.types, arr);
      AtLeast(arr.totalElements, 0, arr.elemSize);
    }
    ArrayStem(info, path[..bracket], arr);
    StemIsBeforeTheBracket(info, path, bracket, |path|);
    WalkLocatesIn(info, arr, toks, live);
  }

  /** Under an empty stem, or one that names a leaf, the walk comes to nothing in any memory. */
  lemma ShadowedStem(info: DebugInfo, path: string, live: Live)
    requires IsWalkable(info.types) && HasPlainNames(info) && Find(path, '[').Some?
    requires StemOf(path) == "" || SymbolNamed(info.symbols, info.fold, info.fold(StemOf(path))).Some?
    ensures Follow(info, path, live).None?
  {
    var bracket := Find(path, '[').value;
    StemIsBeforeTheBracket(info, path, bracket, |path|);
    if bracket > 0 && StemCursor(info, path[..bracket]).value.Some? {
      NothingIsRead(info, StemCursor(info, path[..bracket]).value.value, path[bracket..], live);
    }
  }

  /** Under one that names a pointer, it comes to nothing in a memory that cannot be read. */
  lemma PointerStem(info: DebugInfo, path: string)
    requires IsWalkable(info.types) && HasPlainNames(info) && Find(path, '[').Some? && StemOf(path) != ""
    requires SymbolNamed(info.symbols, info.fold, info.fold(StemOf(path))).None?
    requires PointerNamed(info.pointers, info.fold, info.fold(StemOf(path))).Some?
    ensures Follow(info, path, Unreadable()).None?
  {
    var bracket := Find(path, '[').value;
    StemIsBeforeTheBracket(info, path, bracket, |path|);
    if StemCursor(info, path[..bracket]).value.Some? {
      NothingIsRead(info, StemCursor(info, path[..bracket]).value.value, path[bracket..], Unreadable());
    }
  }

  lemma NothingIsRead(info: DebugInfo, cursor: Cursor, rest: string, live: Live)
    requires IsWalkable(info.types) && rest != "" && rest[0] == '['
    requires cursor.Value? || (cursor.Pointer? && cursor.at.Memory? && live == Unreadable())
    ensures Tokenize(rest).Some? ==> WalkFrom(info, cursor, Tokenize(rest).value, 0, live).None?
  {
  }
}
