/** What is read through the array an `ARRAY[*]` is bound to: what the array variable it lies in has at the
    way to it and then the same accessors. */
module BoundReads {
  import opened BoundArrays
  import opened BoundPlaces
  import opened DebugTables
  import opened ElementAddresses
  import opened Resolvers
  import opened Subscripts
  import opened Wrappers

  /** The accessors that go the way through an array whose elements are of the type `elem`. */
  function PathFrom(types: seq<TypeDesc>, elem: Option<TypeId>, way: Way): seq<Access>
    decreases way, 0
  {
    match way
    case RowAt(row) => Indices(row)
    case ElementAt(subs, rest) => Indices(subs) + (if elem.None? then [] else PathIn(types, elem.value, rest))
    case MemberOf(_, _) => []
  }

  function PathIn(types: seq<TypeDesc>, ty: TypeId, way: Way): seq<Access>
    decreases way, 1
  {
    if ty >= |types| then []
    else match types[ty]
      case Struct(_, fields) =>
        if way.MemberOf? && way.index < |fields|
        then [Field(fields[way.index].name)] + PathIn(types, fields[way.index].ty, way.rest)
        else []
      case Array(_, _, _, elem) => PathFrom(types, Some(elem), way)
      case _ => []
  }

  /** Whether each member on the way is the one that its name is looked up as. */
  ghost predicate IsNamedFrom(info: DebugInfo, elem: Option<TypeId>, way: Way)
    decreases way, 0
  {
    way.ElementAt? && elem.Some? ==> IsNamedIn(info, elem.value, way.rest)
  }

  ghost predicate IsNamedIn(info: DebugInfo, ty: TypeId, way: Way)
    decreases way, 1
  {
    ty < |info.types|
    && match info.types[ty]
       case Struct(_, fields) =>
         way.MemberOf? && way.index < |fields| ==>
           && FieldNamed(fields, info.fold, fields[way.index].name) == Some(fields[way.index])
           && IsNamedIn(info, fields[way.index].ty, way.rest)
       case Array(_, _, _, elem) => IsNamedFrom(info, Some(elem), way)
       case _ => true
  }

  /** A place without how many bytes are said to be there: a stride where an array is read, and the size of
      the type where a layout is. */
  ghost function NoSize(place: Option<VarLoc>): Option<VarLoc> {
    if place.None? then None else Some(place.value.(size := 0))
  }

  lemma {:induction false} SubsShift(dims: seq<Dim>, a: seq<Access>, i: nat, b: seq<Access>, j: nat)
    requires i <= |a| && j <= |b| && a[i..] == b[j..]
    ensures SubsAt(dims, a, i) == SubsAt(dims, b, j)
    decreases |dims|
  {
    if dims != [] && i < |a| {
      assert a[i] == a[i..][0] && b[j] == b[j..][0];
      assert a[i + 1..] == a[i..][1..] && b[j + 1..] == b[j..][1..];
      SubsShift(dims[1..], a, i + 1, b, j + 1);
    }
  }

  lemma StepShifts(info: DebugInfo, a: seq<Access>, i: nat, b: seq<Access>, j: nat, global: bool, address: nat,
                   ty: TypeId)
    requires HasDimensions(info.types) && i <= |a| && j <= |b| && a[i..] == b[j..]
    ensures match PlaceStep(info, a, global, address, i, ty)
            case Over(found) => PlaceStep(info, b, global, address, j, ty) == Over(found)
            case On(next, pos, elem) =>
              && i < pos <= |a| && j + (pos - i) <= |b| && a[pos..] == b[j + (pos - i)..]
              && PlaceStep(info, b, global, address, j, ty) == On(next, j + (pos - i), elem)
  {
    if ty < |info.types| && info.types[ty].Array? {
      SubsShift(info.types[ty].dimensions, a, i, b, j);
    }
    if i < |a| {
      assert a[i] == a[i..][0] && b[j] == b[j..][0];
    }
    var step := PlaceStep(info, a, global, address, i, ty);
    if step.On? {
      PlaceStepTakesTokens(info, a, global, address, i, ty);
      assert a[step.pos..] == a[i..][step.pos - i..] && b[j + (step.pos - i)..] == b[j..][step.pos - i..];
    }
  }

  /** Where accessors lead does not depend on those before them. */
  lemma {:induction false} PlaceShifts(info: DebugInfo, a: seq<Access>, i: nat, b: seq<Access>, j: nat, global: bool,
                                       address: nat, ty: TypeId)
    requires HasDimensions(info.types) && i <= |a| && j <= |b| && a[i..] == b[j..]
    ensures PlaceFrom(info, a, global, address, i, ty) == PlaceFrom(info, b, global, address, j, ty)
    decreases |a| - i
  {
    StepShifts(info, a, i, b, j, global, address, ty);
    var step := PlaceStep(info, a, global, address, i, ty);
    if step.On? {
      PlaceShifts(info, a, step.pos, b, j + (step.pos - i), global, step.address, step.ty);
    }
  }

  /** The subscripts of a row and then those in it. */
  lemma SubsOfBoth(dims: seq<Dim>, rank: nat, row: seq<int>, toks: seq<Access>, pos: nat, more: seq<Access>)
    requires 1 <= rank <= |dims| && InBounds(dims[..|dims| - rank], row)
    requires pos <= |toks| && toks[pos..] == Indices(row) + more
    ensures var subs := SubsAt(dims[|dims| - rank..], more, 0);
            SubsAt(dims, toks, pos) == if subs.None? then None else Some(row + subs.value)
  {
    var init, last := dims[..|dims| - rank], dims[|dims| - rank..];
    var inner, outer := SubsAt(last, more, 0), SubsAt(dims, toks, pos);
    assert |toks| == pos + |row| + |more|;
    forall i | 0 <= i < |row|
      ensures toks[pos + i] == Index(row[i])
    {
      assert toks[pos + i] == toks[pos..][i];
    }
    forall i | 0 <= i < |more|
      ensures toks[pos + |row| + i] == more[i]
    {
      assert toks[pos + |row| + i] == toks[pos..][|row| + i];
    }
    if inner.Some? {
      SubsAtStand(last, more, 0, inner.value);
      assert StandAt(dims, toks, pos, row + inner.value);
      SubsAtStand(dims, toks, pos, row + inner.value);
    }
    if outer.Some? {
      SubsAtStand(dims, toks, pos, outer.value);
      var rest := outer.value[|row|..];
      assert StandAt(last, more, 0, rest);
      SubsAtStand(last, more, 0, rest);
    }
  }

  /** An element read in a layout is the one read as that of an array variable. */
  lemma ElementIsSame(info: DebugInfo, toks: seq<Access>, pos: nat, arr: ArraySym, more: seq<Access>, address: nat,
                      elem: TypeId, shape: Shape, named: Option<VarLoc>)
    requires HasDimensions(info.types) && elem < |info.types| && pos <= |toks| && |arr.dimensions| <= |more|
    requires toks[pos..] == more[|arr.dimensions|..]
    requires shape.elemTy == None && shape.elemType == Some(elem)
    requires (arr.elemTy, arr.elemType) == ElementOf(info.types, shape)
    requires PlaceFrom(info, toks, arr.global, address, pos, elem) == named
    ensures NoSize(named) == NoSize(PlaceAfter(info, arr, more, address))
  {
    PlaceShifts(info, toks, pos, more, |arr.dimensions|, arr.global, address, elem);
    assert (|arr.dimensions| == |more|) == (pos == |toks|);
  }

  /** The element of a row is where the element of the whole is. */
  lemma RowOffset(types: seq<TypeDesc>, shape: Shape, offset: nat, of: Conformand, row: seq<int>, subs: seq<int>)
    requires IsRow(types, shape, offset, of, row)
    requires InBounds(shape.dimensions[|shape.dimensions| - of.rank..], subs)
    ensures InBounds(shape.dimensions, row + subs)
    ensures FlatIndex(shape.dimensions, row + subs) * shape.elemSize
         == offset + FlatIndex(shape.dimensions[|shape.dimensions| - of.rank..], subs) * shape.elemSize
  {
    var dims := shape.dimensions;
    var init, last := dims[..|dims| - of.rank], dims[|dims| - of.rank..];
    SameOffset(init, last, row, subs, shape.elemSize);
    assert init + last == dims;
  }

  lemma ElementStep(info: DebugInfo, toks: seq<Access>, pos: nat, global: bool, address: nat, ty: TypeId,
                    subs: seq<int>, start: nat, more: seq<Access>, at: nat, next: nat, named: Option<VarLoc>)
    requires HasDimensions(info.types) && ty < |info.types| && info.types[ty].Array?
    requires InBounds(info.types[ty].dimensions, subs)
    requires start == FlatIndex(info.types[ty].dimensions, subs) * info.types[ty].elemSize
    requires pos <= |toks| && toks[pos..] == Indices(subs) + more
    requires PlaceFrom(info, toks, global, address, pos, ty) == named
    requires at == address + start && next == pos + |subs|
    ensures next <= |toks| && toks[next..] == more
    ensures PlaceFrom(info, toks, global, at, next, info.types[ty].elem) == named
  {
    SubsStand(info.types[ty].dimensions, subs, toks, pos, more);
  }

  ghost function ShapeIn(ty: TypeDesc): Shape
    requires ty.Array?
  {
    Shape(ty.dimensions, ty.elemSize, None, Some(ty.elem))
  }

  /** The last dimensions of an array in a value are read as the array that they are. */
  lemma RowIsSame(info: DebugInfo, toks: seq<Access>, pos: nat, address: nat, ty: TypeId, offset: nat, of: Conformand,
                  row: seq<int>, found: ArraySym, more: seq<Access>, named: Option<VarLoc>, bound: ArraySym)
    requires HasDimensions(info.types) && AreLaidOut(info.types) && ty < |info.types| && info.types[ty].Array?
    requires IsRow(info.types, ShapeIn(info.types[ty]), offset, of, row) && bound == found.(address := address + offset)
    requires found == Row(info.types, ShapeIn(info.types[ty]), of, found.global)
    requires pos <= |toks| && toks[pos..] == Indices(row) + more
    requires PlaceFrom(info, toks, found.global, address, pos, ty) == named
    ensures NoSize(named) == NoSize(PlaceIn(info, bound, more))
  {
    SubsOfBoth(info.types[ty].dimensions, of.rank, row, toks, pos, more);
    var subs := SubsAt(bound.dimensions, more, 0);
    if subs.Some? {
      SubsAtStand(bound.dimensions, more, 0, subs.value);
      RowElementIsSame(info, toks, pos, address, ty, offset, of, row, more, named, bound, subs.value);
      PlaceAtSubs(info, bound, more, subs.value);
    } else {
      assert PlaceStep(info, toks, found.global, address, pos, ty) == Over(None);
    }
  }

  lemma PlaceAtSubs(info: DebugInfo, arr: ArraySym, toks: seq<Access>, subs: seq<int>)
    requires HasDimensions(info.types) && arr.dimensions != [] && SubsAt(arr.dimensions, toks, 0) == Some(subs)
    ensures InBounds(arr.dimensions, subs) && |arr.dimensions| <= |toks|
    ensures PlaceIn(info, arr, toks) == PlaceAfter(info, arr, toks, AddressOf(arr, subs))
  {
    SubsAtStand(arr.dimensions, toks, 0, subs);
  }

  lemma RowElementIsSame(info: DebugInfo, toks: seq<Access>, pos: nat, address: nat, ty: TypeId, offset: nat,
                         of: Conformand, row: seq<int>, more: seq<Access>, named: Option<VarLoc>, bound: ArraySym,
                         subs: seq<int>)
    requires HasDimensions(info.types) && AreLaidOut(info.types) && ty < |info.types| && info.types[ty].Array?
    requires IsRow(info.types, ShapeIn(info.types[ty]), offset, of, row)
    requires bound == Row(info.types, ShapeIn(info.types[ty]), of, bound.global).(address := address + offset)
    requires StandAt(bound.dimensions, more, 0, subs)
    requires pos <= |toks| && toks[pos..] == Indices(row) + more
    requires PlaceFrom(info, toks, bound.global, address, pos, ty) == named
    ensures NoSize(named) == NoSize(PlaceAfter(info, bound, more, AddressOf(bound, subs)))
  {
    var shape := ShapeIn(info.types[ty]);
    var start, at := RowStart(info.types, shape, address, offset, of, row, bound, subs);
    var next := RowStep(info, toks, pos, bound.global, address, ty, of.rank, row, more, subs, start, at, named);
    assert IsLaidOut(info.types, ty);
    ElementIsSame(info, toks, next, bound, more, at, info.types[ty].elem, shape, named);
  }

  lemma RowStep(info: DebugInfo, toks: seq<Access>, pos: nat, global: bool, address: nat, ty: TypeId, rank: nat,
                row: seq<int>, more: seq<Access>, subs: seq<int>, start: nat, at: nat, named: Option<VarLoc>)
    returns (next: nat)
    requires HasDimensions(info.types) && ty < |info.types| && info.types[ty].Array?
    requires 1 <= rank <= |info.types[ty].dimensions|
    requires StandAt(info.types[ty].dimensions[|info.types[ty].dimensions| - rank..], more, 0, subs)
    requires InBounds(info.types[ty].dimensions, row + subs) && at == address + start
    requires start == FlatIndex(info.types[ty].dimensions, row + subs) * info.types[ty].elemSize
    requires pos <= |toks| && toks[pos..] == Indices(row) + more
    requires PlaceFrom(info, toks, global, address, pos, ty) == named
    ensures next <= |toks| && toks[next..] == more[rank..]
    ensures PlaceFrom(info, toks, global, at, next, info.types[ty].elem) == named
  {
    next := pos + |row + subs|;
    ElementStep(info, toks, pos, global, address, ty, row + subs, start, more[rank..], at, next, named);
  }

  lemma RowStart(types: seq<TypeDesc>, shape: Shape, address: nat, offset: nat, of: Conformand, row: seq<int>,
                 bound: ArraySym, subs: seq<int>)
    returns (start: nat, at: nat)
    requires IsRow(types, shape, offset, of, row) && bound.address == address + offset
    requires bound.dimensions == shape.dimensions[|shape.dimensions| - of.rank..] && bound.elemSize == shape.elemSize
    requires InBounds(bound.dimensions, subs)
    ensures InBounds(shape.dimensions, row + subs)
    ensures start == FlatIndex(shape.dimensions, row + subs) * shape.elemSize
    ensures address + start == at == AddressOf(bound, subs)
  {
    RowOffset(types, shape, offset, of, row, subs);
    at := AddressOf(bound, subs);
    start := at - address;
  }

  lemma MemberStands(info: DebugInfo, ty: TypeId, offset: nat, of: Conformand, global: bool, depth: nat, way: Way,
                     found: ArraySym)
    returns (field: FieldDesc, left: nat)
    requires StandsIn(info.types, ty, offset, of, global, depth, way, found) && IsNamedIn(info, ty, way)
    requires way.MemberOf?
    ensures info.types[ty].Struct? && FieldNamed(info.types[ty].fields, info.fold, field.name) == Some(field)
    ensures depth > 0 && field.offset + left == offset && IsNamedIn(info, field.ty, way.rest)
    ensures StandsIn(info.types, field.ty, left, of, global, depth - 1, way.rest, found)
    ensures PathIn(info.types, ty, way) == [Field(field.name)] + PathIn(info.types, field.ty, way.rest)
  {
    field := info.types[ty].fields[way.index];
    left := offset - field.offset;
  }

  lemma MemberStep(info: DebugInfo, toks: seq<Access>, pos: nat, global: bool, address: nat, ty: TypeId,
                   field: FieldDesc, more: seq<Access>, at: nat, next: nat, named: Option<VarLoc>)
    requires HasDimensions(info.types) && ty < |info.types| && info.types[ty].Struct?
    requires FieldNamed(info.types[ty].fields, info.fold, field.name) == Some(field)
    requires pos <= |toks| && toks[pos..] == [Field(field.name)] + more
    requires PlaceFrom(info, toks, global, address, pos, ty) == named
    requires at == address + field.offset && next == pos + 1
    ensures next <= |toks| && toks[next..] == more && PlaceFrom(info, toks, global, at, next, field.ty) == named
  {
    assert toks[pos] == toks[pos..][0];
    assert toks[pos + 1..] == toks[pos..][1..];
  }

  lemma MemberIsNext(info: DebugInfo, toks: seq<Access>, pos: nat, address: nat, ty: TypeId, offset: nat,
                     of: Conformand, depth: nat, way: Way, found: ArraySym, more: seq<Access>, named: Option<VarLoc>)
    returns (next: nat, elem: TypeId, at: nat, left: nat)
    requires HasDimensions(info.types) && IsNamedIn(info, ty, way) && way.MemberOf?
    requires StandsIn(info.types, ty, offset, of, found.global, depth, way, found)
    requires pos <= |toks| && toks[pos..] == PathIn(info.types, ty, way) + more
    requires PlaceFrom(info, toks, found.global, address, pos, ty) == named
    ensures depth > 0 && at + left == address + offset && IsNamedIn(info, elem, way.rest)
    ensures StandsIn(info.types, elem, left, of, found.global, depth - 1, way.rest, found)
    ensures next <= |toks| && toks[next..] == PathIn(info.types, elem, way.rest) + more
    ensures PlaceFrom(info, toks, found.global, at, next, elem) == named
  {
    var field;
    field, left := MemberStands(info, ty, offset, of, found.global, depth, way, found);
    next, elem, at := pos + 1, field.ty, address + field.offset;
    var deeper := PathIn(info.types, elem, way.rest);
    Joined([Field(field.name)], deeper, more);
    MemberStep(info, toks, pos, found.global, address, ty, field, deeper + more, at, next, named);
  }

  lemma ElementStands(info: DebugInfo, ty: TypeId, offset: nat, of: Conformand, global: bool, depth: nat, way: Way,
                      found: ArraySym)
    returns (elem: TypeId, start: nat, left: nat)
    requires StandsIn(info.types, ty, offset, of, global, depth, way, found) && IsNamedIn(info, ty, way)
    requires way.ElementAt?
    ensures info.types[ty].Array? && elem == info.types[ty].elem && InBounds(info.types[ty].dimensions, way.subs)
    ensures start == FlatIndex(info.types[ty].dimensions, way.subs) * info.types[ty].elemSize
    ensures depth > 0 && start + left == offset && IsNamedIn(info, elem, way.rest)
    ensures StandsIn(info.types, elem, left, of, global, depth - 1, way.rest, found)
    ensures PathIn(info.types, ty, way) == Indices(way.subs) + PathIn(info.types, elem, way.rest)
  {
    elem := info.types[ty].elem;
    start := FlatIndex(info.types[ty].dimensions, way.subs) * info.types[ty].elemSize;
    left := offset - start;
  }

  lemma ElementIsNext(info: DebugInfo, toks: seq<Access>, pos: nat, address: nat, ty: TypeId, offset: nat,
                      of: Conformand, depth: nat, way: Way, found: ArraySym, more: seq<Access>, named: Option<VarLoc>)
    returns (next: nat, elem: TypeId, at: nat, left: nat)
    requires HasDimensions(info.types) && IsNamedIn(info, ty, way) && way.ElementAt?
    requires StandsIn(info.types, ty, offset, of, found.global, depth, way, found)
    requires pos <= |toks| && toks[pos..] == PathIn(info.types, ty, way) + more
    requires PlaceFrom(info, toks, found.global, address, pos, ty) == named
    ensures depth > 0 && at + left == address + offset && IsNamedIn(info, elem, way.rest)
    ensures StandsIn(info.types, elem, left, of, found.global, depth - 1, way.rest, found)
    ensures next <= |toks| && toks[next..] == PathIn(info.types, elem, way.rest) + more
    ensures PlaceFrom(info, toks, found.global, at, next, elem) == named
  {
    var start;
    elem, start, left := ElementStands(info, ty, offset, of, found.global, depth, way, found);
    next, at := pos + |way.subs|, address + start;
    var deeper := PathIn(info.types, elem, way.rest);
    Joined(Indices(way.subs), deeper, more);
    ElementStep(info, toks, pos, found.global, address, ty, way.subs, start, deeper + more, at, next, named);
  }

  /** The way leads to the last dimensions of an array, that `found` is. */
  lemma {:induction false} WayLeads(info: DebugInfo, toks: seq<Access>, pos: nat, address: nat, ty: TypeId, offset: nat,
      of: Conformand, depth: nat, way: Way, found: ArraySym, more: seq<Access>, named: Option<VarLoc>)
    returns (last: nat, whole: TypeId, at: nat, left: nat, row: seq<int>)
    requires HasDimensions(info.types) && IsNamedIn(info, ty, way)
    requires StandsIn(info.types, ty, offset, of, found.global, depth, way, found)
    requires pos <= |toks| && toks[pos..] == PathIn(info.types, ty, way) + more
    requires PlaceFrom(info, toks, found.global, address, pos, ty) == named
    ensures at + left == address + offset && whole < |info.types| && info.types[whole].Array?
    ensures IsRow(info.types, ShapeIn(info.types[whole]), left, of, row)
    ensures found == Row(info.types, ShapeIn(info.types[whole]), of, found.global)
    ensures last <= |toks| && toks[last..] == Indices(row) + more
    ensures PlaceFrom(info, toks, found.global, at, last, whole) == named
    decreases way
  {
    if way.RowAt? {
      last, whole, at, left, row := pos, ty, address, offset, way.row;
    } else {
      var next, elem, there, deeper;
      if way.MemberOf? {
        next, elem, there, deeper :=
          MemberIsNext(info, toks, pos, address, ty, offset, of, depth, way, found, more, named);
      } else {
        next, elem, there, deeper :=
          ElementIsNext(info, toks, pos, address, ty, offset, of, depth, way, found, more, named);
      }
      last, whole, at, left, row :=
        WayLeads(info, toks, next, there, elem, deeper, of, depth - 1, way.rest, found, more, named);
    }
  }

  /** What accessors past the way to an array name is what they name in that array. */
  lemma WayIsSame(info: DebugInfo, toks: seq<Access>, pos: nat, address: nat, ty: TypeId, offset: nat, of: Conformand,
                  depth: nat, way: Way, found: ArraySym, more: seq<Access>, named: Option<VarLoc>, bound: ArraySym)
    requires HasDimensions(info.types) && AreLaidOut(info.types) && IsNamedIn(info, ty, way)
    requires StandsIn(info.types, ty, offset, of, found.global, depth, way, found)
    requires found.dimensions != [] && bound == found.(address := address + offset)
    requires pos <= |toks| && toks[pos..] == PathIn(info.types, ty, way) + more
    requires PlaceFrom(info, toks, found.global, address, pos, ty) == named
    ensures NoSize(named) == NoSize(PlaceIn(info, bound, more))
  {
    var last, whole, at, left, row :=
      WayLeads(info, toks, pos, address, ty, offset, of, depth, way, found, more, named);
    RowIsSame(info, toks, last, at, whole, left, of, row, found, more, named, bound);
  }

  lemma SubsStand(dims: seq<Dim>, subs: seq<int>, toks: seq<Access>, pos: nat, more: seq<Access>)
    requires InBounds(dims, subs) && pos <= |toks| && toks[pos..] == Indices(subs) + more
    ensures SubsAt(dims, toks, pos) == Some(subs) && pos + |dims| <= |toks| && toks[pos + |dims|..] == more
  {
    forall i | 0 <= i < |subs|
      ensures toks[pos + i] == Index(subs[i])
    {
      assert toks[pos + i] == toks[pos..][i];
    }
    SubsAtStand(dims, toks, pos, subs);
    assert toks[pos + |dims|..] == toks[pos..][|dims|..];
  }

  // ----- From an array variable

  /** Past the subscripts, the last dimensions of an array variable are read as the array that they are. */
  lemma RowRestIsSame(info: DebugInfo, arr: ArraySym, of: Conformand, toks: seq<Access>, found: ArraySym,
                      address: nat, more: seq<Access>, at: nat)
    requires HasDimensions(info.types) && DescribesElement(info.types, arr)
    requires 1 <= of.rank <= |arr.dimensions| <= |toks| && |found.dimensions| <= |more|
    requires found == Row(info.types, ShapeOf(arr), of, arr.global)
    requires toks[|arr.dimensions|..] == more[|found.dimensions|..]
    ensures PlaceAfter(info, arr, toks, at) == PlaceAfter(info, found.(address := address), more, at)
  {
    assert |toks| - |arr.dimensions| == |more| - |found.dimensions|;
    if |toks| > |arr.dimensions| && arr.elemType.Some? {
      PlaceShifts(info, toks, |arr.dimensions|, more, |found.dimensions|, arr.global, at, arr.elemType.value);
    }
  }

  lemma RowAddress(types: seq<TypeDesc>, arr: ArraySym, offset: nat, of: Conformand, row: seq<int>, bound: ArraySym,
                   subs: seq<int>)
    requires IsRow(types, ShapeOf(arr), offset, of, row) && bound.address == arr.address + offset
    requires bound.dimensions == arr.dimensions[|arr.dimensions| - of.rank..] && bound.elemSize == arr.elemSize
    requires InBounds(bound.dimensions, subs)
    ensures InBounds(arr.dimensions, row + subs) && AddressOf(arr, row + subs) == AddressOf(bound, subs)
  {
    RowOffset(types, ShapeOf(arr), offset, of, row, subs);
  }

  lemma RowOfArrayIsSame(info: DebugInfo, arr: ArraySym, offset: nat, of: Conformand, row: seq<int>, found: ArraySym,
                         more: seq<Access>)
    requires HasDimensions(info.types) && DescribesElement(info.types, arr) && arr.dimensions != []
    requires IsRow(info.types, ShapeOf(arr), offset, of, row) && found == Row(info.types, ShapeOf(arr), of, arr.global)
    ensures PlaceIn(info, arr, Indices(row) + more) == PlaceIn(info, found.(address := arr.address + offset), more)
  {
    var toks, bound := Indices(row) + more, found.(address := arr.address + offset);
    assert toks[0..] == Indices(row) + more;
    SubsOfBoth(arr.dimensions, of.rank, row, toks, 0, more);
    var subs := SubsAt(bound.dimensions, more, 0);
    if subs.Some? {
      PlaceAtSubs(info, arr, toks, row + subs.value);
      PlaceAtSubs(info, bound, more, subs.value);
      assert toks[|arr.dimensions|..] == more[of.rank..];
      RowRestIsSame(info, arr, of, toks, found, bound.address, more, AddressOf(bound, subs.value));
      RowAddress(info.types, arr, offset, of, row, bound, subs.value);
    }
  }

  /** What accessors past the way to an array name in an array variable is what they name in that array. */
  lemma StandsIsSame(info: DebugInfo, arr: ArraySym, offset: nat, of: Conformand, depth: nat, way: Way,
                     found: ArraySym, more: seq<Access>)
    requires HasDimensions(info.types) && AreLaidOut(info.types) && IsNamedFrom(info, arr.elemType, way)
    requires DescribesElement(info.types, arr) && arr.dimensions != [] && found.dimensions != []
    requires StandsFrom(info.types, ShapeOf(arr), offset, of, arr.global, depth, way, found)
    requires found.global == arr.global
    ensures NoSize(PlaceIn(info, arr, PathFrom(info.types, arr.elemType, way) + more))
         == NoSize(PlaceIn(info, found.(address := arr.address + offset), more))
  {
    if way.RowAt? {
      RowOfArrayIsSame(info, arr, offset, of, way.row, found, more);
    } else {
      var elem, deeper := arr.elemType.value, PathIn(info.types, arr.elemType.value, way.rest) + more;
      var toks, at := Indices(way.subs) + deeper, AddressOf(arr, way.subs);
      assert PathFrom(info.types, arr.elemType, way) + more == toks;
      SubsStand(arr.dimensions, way.subs, toks, 0, deeper);
      assert PlaceIn(info, arr, toks) == PlaceFrom(info, toks, arr.global, at, |way.subs|, elem);
      WayIsSame(info, toks, |way.subs|, at, elem, offset - (at - arr.address), of, depth - 1, way.rest, found, more,
                PlaceIn(info, arr, toks), found.(address := arr.address + offset));
    }
  }

  // ----- What is located

  lemma {:induction false} FoundDescribes(types: seq<TypeDesc>, shape: Shape, offset: nat, of: Conformand, global: bool,
                                          depth: nat, way: Way, found: ArraySym)
    requires AreLaidOut(types) && StandsFrom(types, shape, offset, of, global, depth, way, found)
    requires IsSolid(types, shape)
    requires shape.elemType.None? && shape.elemTy.Some? ==> shape.elemTy.value.SizeBytes() <= shape.elemSize
    requires shape.elemType.Some? && shape.elemTy.Some? ==>
               var elem := types[shape.elemType.value]; elem.Scalar? || elem.Enum?
    ensures DescribesElement(types, found) && found.global == global
    decreases way, 0
  {
    if way.ElementAt? {
      var start := FlatIndex(shape.dimensions, way.subs) * shape.elemSize;
      FoundInDescribes(types, shape.elemType.value, offset - start, of, global, depth - 1, way.rest, found);
    }
  }

  lemma {:induction false} FoundInDescribes(types: seq<TypeDesc>, ty: TypeId, offset: nat, of: Conformand, global: bool,
                                            depth: nat, way: Way, found: ArraySym)
    requires AreLaidOut(types) && StandsIn(types, ty, offset, of, global, depth, way, found)
    ensures DescribesElement(types, found) && found.global == global
    decreases way, 1
  {
    assert IsLaidOut(types, ty);
    match types[ty]
    case Struct(_, fields) =>
      FoundInDescribes(types, fields[way.index].ty, offset - fields[way.index].offset, of, global, depth - 1, way.rest,
                       found);
    case Array(dims, _, stride, elem) =>
      FoundDescribes(types, Shape(dims, stride, None, Some(elem)), offset, of, global, depth, way, found);
  }

  /** What stands in an array has the asked rank and element, and ends in it. */
  lemma {:induction false} StandsFits(types: seq<TypeDesc>, shape: Shape, offset: nat, of: Conformand, global: bool,
                                      depth: nat, way: Way, found: ArraySym, bytes: nat)
    requires AreLaidOut(types) && IsSolid(types, shape) && bytes == Product(shape.dimensions) * shape.elemSize
    requires StandsFrom(types, shape, offset, of, global, depth, way, found)
    ensures Fits(types, found, offset, of, bytes)
    decreases way, 0
  {
    if way.RowAt? {
      RowStandsFits(types, shape, offset, of, global, way.row);
    } else {
      var start := FlatIndex(shape.dimensions, way.subs) * shape.elemSize;
      var elem := shape.elemType.value;
      StandsInFits(types, elem, offset - start, of, global, depth - 1, way.rest, found);
      InElementFits(types, shape, offset, of, way.subs, found, start, types[elem].Size(), bytes);
    }
  }

  lemma RowStandsFits(types: seq<TypeDesc>, shape: Shape, offset: nat, of: Conformand, global: bool, row: seq<int>)
    requires IsSolid(types, shape) && IsRow(types, shape, offset, of, row)
    ensures Fits(types, Row(types, shape, of, global), offset, of, Product(shape.dimensions) * shape.elemSize)
  {
    RowIsInside(types, shape, offset, of, row);
    ExtentsAre(shape.dimensions);
    RowIsFound(types, shape, offset, of, row);
    RowFits(types, shape, offset, of, global);
  }

  lemma InElementFits(types: seq<TypeDesc>, shape: Shape, offset: nat, of: Conformand, subs: seq<int>, found: ArraySym,
                      start: nat, size: nat, bytes: nat)
    requires Inhabited(shape.dimensions) && InBounds(shape.dimensions, subs) && size <= shape.elemSize
    requires start == FlatIndex(shape.dimensions, subs) * shape.elemSize && start <= offset
    requires bytes == Product(shape.dimensions) * shape.elemSize && Fits(types, found, offset - start, of, size)
    ensures Fits(types, found, offset, of, bytes)
  {
    FlatIndexInRange(shape.dimensions, subs);
    AtLeast(Product(shape.dimensions), FlatIndex(shape.dimensions, subs) + 1, shape.elemSize);
  }

  lemma {:induction false} StandsInFits(types: seq<TypeDesc>, ty: TypeId, offset: nat, of: Conformand, global: bool,
                                        depth: nat, way: Way, found: ArraySym)
    requires AreLaidOut(types) && StandsIn(types, ty, offset, of, global, depth, way, found)
    ensures Fits(types, found, offset, of, types[ty].Size())
    decreases way, 1
  {
    assert IsLaidOut(types, ty);
    match types[ty]
    case Struct(_, fields) =>
      StandsInFits(types, fields[way.index].ty, offset - fields[way.index].offset, of, global, depth - 1, way.rest,
                   found);
    case Array(dims, _, stride, elem) =>
      StandsFits(types, Shape(dims, stride, None, Some(elem)), offset, of, global, depth, way, found,
                 types[ty].Size());
  }

  /** It is an array as the tables of a module describe them. */
  lemma FoundIsArray(types: seq<TypeDesc>, arrays: seq<ArraySym>, address: nat, of: Conformand, spot: Spot,
                     found: ArraySym)
    requires AreLaidOut(types) && StandsThere(types, arrays, address, of, spot, found)
    requires IsArray(types, arrays[spot.index])
    ensures IsArray(types, found.(address := address)) && found.global == arrays[spot.index].global
    ensures found.dimensions != []
  {
    var arr := arrays[spot.index];
    ArrayIsSolid(types, arr);
    FoundDescribes(types, ShapeOf(arr), address - arr.address, of, arr.global, NESTING, spot.way, found);
    StandsFits(types, ShapeOf(arr), address - arr.address, of, arr.global, NESTING, spot.way, found,
               arr.totalElements * arr.elemSize);
  }

  ghost predicate ReadsSo(info: DebugInfo, arr: ArraySym, way: Way, bound: ArraySym, toks: seq<Access>)
    requires IsLocatable(info.types)
  {
    NoSize(LocateIn(info, arr, PathFrom(info.types, arr.elemType, way) + toks)) == NoSize(LocateIn(info, bound, toks))
  }

  /** Whether any accessors name in `bound` what those of the way and then they name in `arr`. */
  ghost predicate ReadsThrough(info: DebugInfo, arr: ArraySym, way: Way, bound: ArraySym)
    requires IsLocatable(info.types)
  {
    forall toks :: ReadsSo(info, arr, way, bound, toks)
  }

  /** What accessors name in an array that is found is what those of the way to it and then they name in the
      array variable it was found in, whichever accessors they are. */
  lemma FoundReadsTheSame(info: DebugInfo, address: nat, of: Conformand, spot: Spot, found: ArraySym, toks: seq<Access>)
    requires IsWellFormed(info) && StandsThere(info.types, info.arrays, address, of, spot, found)
    requires IsNamedFrom(info, info.arrays[spot.index].elemType, spot.way)
    ensures ReadsSo(info, info.arrays[spot.index], spot.way, found.(address := address), toks)
  {
    var arr := info.arrays[spot.index];
    assert arr in info.arrays;
    FoundIsArray(info.types, info.arrays, address, of, spot, found);
    StandsIsSame(info, arr, address - arr.address, of, NESTING, spot.way, found, toks);
    BothAreLocated(info, arr, found.(address := address), spot.way, toks);
  }

  lemma BothAreLocated(info: DebugInfo, arr: ArraySym, bound: ArraySym, way: Way, toks: seq<Access>)
    requires IsWellFormed(info) && IsArray(info.types, arr) && IsArray(info.types, bound)
    requires NoSize(PlaceIn(info, arr, PathFrom(info.types, arr.elemType, way) + toks))
          == NoSize(PlaceIn(info, bound, toks))
    ensures ReadsSo(info, arr, way, bound, toks)
  {
    LocateInIsPlace(info, arr, PathFrom(info.types, arr.elemType, way) + toks);
    LocateInIsPlace(info, bound, toks);
  }

  /** Whatever is read through the array an `ARRAY[*]` is bound to is what the one way that is seen and the same
      accessors read in an array variable, where the way can be named. */
  lemma BoundReadsTheWhole(info: DebugInfo, address: nat, of: Conformand)
    requires IsWellFormed(info) && BoundArray(info.types, info.arrays, address, of).Some?
    ensures var bound := BoundArray(info.types, info.arrays, address, of).value;
            exists spot: Spot, found: ArraySym ::
              && IsOnlySeen(info.types, info.arrays, address, of, spot, found) && bound == found.(address := address)
              && (IsNamedFrom(info, info.arrays[spot.index].elemType, spot.way) ==>
                    ReadsThrough(info, info.arrays[spot.index], spot.way, bound))
  {
    var bound := BoundArray(info.types, info.arrays, address, of).value;
    assert forall i :: 0 <= i < |info.arrays| ==> info.arrays[i] in info.arrays && IsArray(info.types, info.arrays[i]);
    BoundArrayIsExact(info.types, info.arrays, address, of, bound);
    var spot: Spot, found: ArraySym :|
      IsOnlySeen(info.types, info.arrays, address, of, spot, found) && bound == found.(address := address);
    if IsNamedFrom(info, info.arrays[spot.index].elemType, spot.way) {
      forall toks
        ensures ReadsSo(info, info.arrays[spot.index], spot.way, bound, toks)
      {
        FoundReadsTheSame(info, address, of, spot, found, toks);
      }
    }
  }
}
