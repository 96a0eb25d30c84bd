/** The array an `ARRAY[*]` is bound to. All that is known of it is the address it starts at, how many
    dimensions it has and what its elements are: it is a whole array a descriptor gives, the last
    dimensions of one, or an array in an element, which the type table gives. */
module BoundArrays {
  import opened Bytes
  import opened DebugTables
  import opened Subscripts
  import opened Texts
  import opened Wrappers

  /** An array as the search sees it: a descriptor's, or one in an element. */
  datatype Shape = Shape(dimensions: seq<Dim>, elemSize: nat, elemTy: Option<SymType>, elemType: Option<TypeId>)

  /** How many arrays and STRUCTs deep the search goes into an element. */
  const NESTING: nat := 32

  /** How many elements each dimension has; nothing for bounds that give none, or more than a count
      holds. */
  function Extents(dims: seq<Dim>): (r: Option<seq<nat>>)
    ensures r.Some? ==> |r.value| == |dims| && forall i :: 0 <= i < |dims| ==> r.value[i] == Extent(dims[i]) >= 1
  {
    if dims == [] then Some([])
    else
      var span :- Checked(dims[0].1 - dims[0].0);
      var extent :- Checked(span + 1);
      if extent <= 0 then None
      else
        var rest :- Extents(dims[1..]);
        Some([extent] + rest)
  }

  /** `bytes` times each of the extents, while it fits 64 bits. */
  function CheckedBytes(bytes: nat, extents: seq<nat>): Option<nat>
    decreases |extents|
  {
    if extents == [] then Some(bytes)
    else if bytes * extents[0] >= U64_LIMIT then None
    else CheckedBytes(bytes * extents[0], extents[1..])
  }

  function Count(extents: seq<nat>): nat {
    if extents == [] then 1 else extents[0] * Count(extents[1..])
  }

  function ScalarOf(types: seq<TypeDesc>, id: TypeId): Option<SymType> {
    if id < |types| && types[id].Scalar? then Some(types[id].scalar) else None
  }

  /** Whether the elements of `shape` are what an `ARRAY[*] OF` the type `elem` has: that entry, or the
      same scalar. A STRING is one whatever its capacity. */
  predicate IsElement(types: seq<TypeDesc>, shape: Shape, elem: TypeId) {
    shape.elemType == Some(elem)
    || var have := if shape.elemType.Some? then ScalarOf(types, shape.elemType.value) else shape.elemTy;
       var want := ScalarOf(types, elem);
       have.Some? && want.Some? && (have == want || (have.value.String? && want.value.String?))
  }

  /** What an element is, to an `ARRAY[*]`: a text of any capacity, a scalar, or something of an entry that is
      not one. */
  datatype Element = AnyText | OneScalar(ty: SymType) | OfEntry(id: TypeId)

  ghost function ElementThat(ty: SymType): Element {
    if ty.String? then AnyText else OneScalar(ty)
  }

  ghost function ElementNamed(types: seq<TypeDesc>, id: TypeId): Element {
    if id < |types| && types[id].Scalar? then ElementThat(types[id].scalar) else OfEntry(id)
  }

  /** What the elements of an array are; nothing when it does not say. */
  ghost function ElementIn(types: seq<TypeDesc>, shape: Shape): Option<Element> {
    match (shape.elemType, shape.elemTy)
    case (Some(id), _) => Some(ElementNamed(types, id))
    case (None, Some(ty)) => Some(ElementThat(ty))
    case (None, None) => None
  }

  /** They are those of the entry asked for if and only if they are the same. */
  lemma ElementIsExact(types: seq<TypeDesc>, shape: Shape, elem: TypeId)
    ensures IsElement(types, shape, elem) <==> ElementIn(types, shape) == Some(ElementNamed(types, elem))
  {
  }

  /** The element of `shape` as a descriptor says it. */
  function ElementOf(types: seq<TypeDesc>, shape: Shape): (Option<SymType>, Option<TypeId>) {
    match shape.elemType
    case None => (shape.elemTy, None)
    case Some(id) =>
      if id < |types| && types[id].Scalar? then (Some(types[id].scalar), None)
      else if id < |types| && types[id].Enum? then (Some(types[id].storage), Some(id))
      else (shape.elemTy, Some(id))
  }

  /** The member an offset is in: the last of those that start the farthest at or before it. */
  function MemberAt(fields: seq<FieldDesc>, offset: nat): (r: Option<FieldDesc>)
    ensures r.Some? ==> r.value in fields && r.value.offset <= offset
    decreases |fields|
  {
    if fields == [] then None
    else
      var last := fields[|fields| - 1];
      var before := MemberAt(fields[..|fields| - 1], offset);
      if last.offset <= offset && (before.None? || before.value.offset <= last.offset) then Some(last) else before
  }

  /** The array that `shape`'s last `rank` dimensions are. */
  function Row(types: seq<TypeDesc>, shape: Shape, of: Conformand, global: bool): ArraySym
    requires of.rank <= |shape.dimensions|
  {
    var dims := shape.dimensions[|shape.dimensions| - of.rank..];
    var (elemTy, elemType) := ElementOf(types, shape);
    ArraySym("", 0, dims, if Product(dims) >= 0 then Product(dims) else 0, shape.elemSize, elemTy, global, elemType)
  }

  /** Whether a row of `shape` of the asked rank and element starts `offset` bytes in. */
  predicate RowStarts(types: seq<TypeDesc>, shape: Shape, extents: seq<nat>, offset: nat, of: Conformand)
    requires |extents| == |shape.dimensions| && shape.elemSize > 0
    requires forall i :: 0 <= i < |extents| ==> extents[i] >= 1
  {
    && 1 <= of.rank <= |extents| && IsElement(types, shape, of.elem)
    && var elements := Count(extents[|extents| - of.rank..]);
       CountIsPositive(extents[|extents| - of.rank..], shape.elemSize);
       offset % (elements * shape.elemSize) == 0 && elements < U32_LIMIT
  }

  /** The arrays of the asked rank and element that start `offset` bytes into the array `shape` is. */
  function ArraysFrom(types: seq<TypeDesc>, shape: Shape, offset: nat, of: Conformand, global: bool, depth: nat)
    : seq<ArraySym>
    decreases depth, 0, offset
  {
    var extents := Extents(shape.dimensions);
    if extents.None? then []
    else
      var whole := CheckedBytes(shape.elemSize, extents.value);
      if whole.None? || shape.elemSize == 0 || offset >= whole.value then []
      else
        (if RowStarts(types, shape, extents.value, offset, of) then [Row(types, shape, of, global)] else [])
        + (if depth == 0 || shape.elemType.None? then []
           else ArraysIn(types, shape.elemType.value, offset % shape.elemSize, of, global, depth - 1))
  }

  /** Those that start `offset` bytes into a value of the type `ty`. */
  function ArraysIn(types: seq<TypeDesc>, ty: TypeId, offset: nat, of: Conformand, global: bool, depth: nat)
    : seq<ArraySym>
    decreases depth, 1, offset
  {
    if ty >= |types| then []
    else match types[ty]
      case Struct(_, fields) =>
        var member := MemberAt(fields, offset);
        if depth == 0 || member.None? then []
        else ArraysIn(types, member.value.ty, offset - member.value.offset, of, global, depth - 1)
      case Array(dims, _, stride, elem) =>
        ArraysFrom(types, Shape(dims, stride, None, Some(elem)), offset, of, global, depth)
      case _ => []
  }

  function ShapeOf(arr: ArraySym): Shape {
    Shape(arr.dimensions, arr.elemSize, arr.elemTy, arr.elemType)
  }

  /** Whether `address` is among the bytes the descriptor says its array takes. */
  predicate Takes(arr: ArraySym, address: nat) {
    arr.address <= address && address - arr.address < arr.totalElements * arr.elemSize
  }

  function FoundIn(types: seq<TypeDesc>, arr: ArraySym, address: nat, of: Conformand): seq<ArraySym> {
    if Takes(arr, address)
    then ArraysFrom(types, ShapeOf(arr), address - arr.address, of, arr.global, NESTING)
    else []
  }

  /** Those that start at `address` in the arrays of the module. */
  function AllFound(types: seq<TypeDesc>, arrays: seq<ArraySym>, address: nat, of: Conformand): seq<ArraySym> {
    if arrays == [] then []
    else AllFound(types, arrays[..|arrays| - 1], address, of) + FoundIn(types, arrays[|arrays| - 1], address, of)
  }

  /** The one that does, at that address; nothing when there is none, or more than one. */
  function BoundArray(types: seq<TypeDesc>, arrays: seq<ArraySym>, address: nat, of: Conformand): Option<ArraySym> {
    var found := AllFound(types, arrays, address, of);
    if |found| == 1 then Some(found[0].(address := address)) else None
  }

  // ----- The search

  method SearchFrom(types: seq<TypeDesc>, shape: Shape, offset: nat, of: Conformand, global: bool, depth: nat,
                    found: seq<ArraySym>)
    returns (more: seq<ArraySym>)
    ensures more == found + ArraysFrom(types, shape, offset, of, global, depth)
    decreases depth, 0
  {
    more := found;
    var extents := Extents(shape.dimensions);
    if extents.None? {
      return;
    }
    var whole := CheckedBytes(shape.elemSize, extents.value);
    if whole.None? || shape.elemSize == 0 || offset >= whole.value {
      return;
    }
    if 1 <= of.rank <= |extents.value| && IsElement(types, shape, of.elem) {
      var last := |extents.value| - of.rank;
      var elements := Count(extents.value[last..]);
      CountIsPositive(extents.value[last..], shape.elemSize);
      if offset % (elements * shape.elemSize) == 0 && elements < U32_LIMIT {
        var (elemTy, elemType) := ElementOf(types, shape);
        CountIsProduct(shape.dimensions[last..], extents.value[last..]);
        more := more + [ArraySym("", 0, shape.dimensions[last..], elements, shape.elemSize, elemTy, global, elemType)];
      }
    }
    if depth > 0 && shape.elemType.Some? {
      more := SearchIn(types, shape.elemType.value, offset % shape.elemSize, of, global, depth - 1, more);
    }
  }

  method SearchIn(types: seq<TypeDesc>, ty: TypeId, offset: nat, of: Conformand, global: bool, depth: nat,
                  found: seq<ArraySym>)
    returns (more: seq<ArraySym>)
    ensures more == found + ArraysIn(types, ty, offset, of, global, depth)
    decreases depth, 1
  {
    more := found;
    if ty < |types| {
      match types[ty] {
        case Struct(_, fields) =>
          var member := MemberAt(fields, offset);
          if depth > 0 && member.Some? {
            more := SearchIn(types, member.value.ty, offset - member.value.offset, of, global, depth - 1, more);
          }
        case Array(dims, _, stride, elem) =>
          more := SearchFrom(types, Shape(dims, stride, None, Some(elem)), offset, of, global, depth, more);
        case _ =>
      }
    }
  }

  method SearchArray(types: seq<TypeDesc>, arr: ArraySym, address: nat, of: Conformand, found: seq<ArraySym>)
    returns (more: seq<ArraySym>)
    ensures more == found + FoundIn(types, arr, address, of)
  {
    if !Takes(arr, address) {
      return found;
    }
    more := SearchFrom(types, ShapeOf(arr), address - arr.address, of, arr.global, NESTING, found);
  }

  method FindBoundArray(types: seq<TypeDesc>, arrays: seq<ArraySym>, address: nat, of: Conformand)
    returns (r: Option<ArraySym>)
    ensures r == BoundArray(types, arrays, address, of)
  {
    var found: seq<ArraySym> := [];
    for i := 0 to |arrays|
      invariant found == AllFound(types, arrays[..i], address, of) && |found| <= 1
    {
      AllFoundStep(types, arrays, i, address, of);
      found := SearchArray(types, arrays[i], address, of, found);
      if |found| > 1 {
        AllFoundGrows(types, arrays, i + 1, address, of);
        return None;
      }
    }
    assert arrays[..|arrays|] == arrays;
    return if found == [] then None else Some(found[0].(address := address));
  }

  lemma AllFoundStep(types: seq<TypeDesc>, arrays: seq<ArraySym>, i: nat, address: nat, of: Conformand)
    requires i < |arrays|
    ensures AllFound(types, arrays[..i + 1], address, of)
         == AllFound(types, arrays[..i], address, of) + FoundIn(types, arrays[i], address, of)
  {
    assert arrays[..i + 1][..i] == arrays[..i];
  }

  lemma {:induction false} AllFoundGrows(types: seq<TypeDesc>, arrays: seq<ArraySym>, i: nat, address: nat,
                                         of: Conformand)
    requires i <= |arrays|
    ensures |AllFound(types, arrays[..i], address, of)| <= |AllFound(types, arrays, address, of)|
    decreases |arrays|
  {
    if i == |arrays| {
      assert arrays[..i] == arrays;
    } else {
      var shorter := arrays[..|arrays| - 1];
      assert shorter[..i] == arrays[..i];
      AllFoundGrows(types, shorter, i, address, of);
    }
  }

  // ----- The products

  lemma {:induction false} CountIsPositive(extents: seq<nat>, elemSize: nat)
    requires forall i :: 0 <= i < |extents| ==> extents[i] >= 1
    ensures Count(extents) >= 1 && Count(extents) * elemSize >= elemSize
  {
    if extents != [] {
      CountIsPositive(extents[1..], elemSize);
      AtLeast(extents[0], 1, Count(extents[1..]));
    }
    AtLeast(Count(extents), 1, elemSize);
  }

  lemma {:induction false} CountIsProduct(dims: seq<Dim>, extents: seq<nat>)
    requires |dims| == |extents| && forall i :: 0 <= i < |dims| ==> extents[i] == Extent(dims[i])
    ensures Count(extents) == Product(dims)
  {
    if dims != [] {
      CountIsProduct(dims[1..], extents[1..]);
    }
  }

  lemma {:induction false} CheckedBytesIsExact(bytes: nat, extents: seq<nat>)
    requires bytes < U64_LIMIT && forall i :: 0 <= i < |extents| ==> extents[i] >= 1
    ensures CheckedBytes(bytes, extents)
         == if bytes * Count(extents) < U64_LIMIT then Some(bytes * Count(extents)) else None
    decreases |extents|
  {
    if extents != [] {
      var first, rest := extents[0], Count(extents[1..]);
      Associates(bytes, first, rest);
      CountIsPositive(extents[1..], 0);
      AtLeast(rest, 1, bytes * first);
      if bytes * first < U64_LIMIT {
        CheckedBytesIsExact(bytes * first, extents[1..]);
      }
    }
  }

  // ----- What is answered

  /** Whether `found` has the asked rank and element, and starts `offset` bytes into something of
      `bytes` bytes and ends in it. */
  ghost predicate Fits(types: seq<TypeDesc>, found: ArraySym, offset: nat, of: Conformand, bytes: nat) {
    && 1 <= |found.dimensions| == of.rank
    && Inhabited(found.dimensions)
    && Product(found.dimensions) == found.totalElements < U32_LIMIT
    && HasElement(types, found, of.elem)
    && found.elemSize > 0
    && offset + found.totalElements * found.elemSize <= bytes
  }

  /** Whether the elements of an answer are what was asked for, as its descriptor says them. */
  ghost predicate HasElement(types: seq<TypeDesc>, found: ArraySym, elem: TypeId) {
    ElementIn(types, ShapeOf(found)) == Some(ElementNamed(types, elem))
  }

  lemma {:induction false} ExtentsAre(dims: seq<Dim>)
    ensures Extents(dims).Some? ==> Product(dims) == Count(Extents(dims).value) >= 1
    ensures Inhabited(dims) && Product(dims) < U32_LIMIT ==> Extents(dims).Some?
  {
    if dims != [] {
      ExtentsAre(dims[1..]);
      if Inhabited(dims) && Product(dims) < U32_LIMIT {
        ProductIsPositive(dims[1..]);
        AtLeast(Product(dims[1..]), 1, Extent(dims[0]));
        AtLeast(Extent(dims[0]), 1, Product(dims[1..]));
      }
    }
    if Extents(dims).Some? {
      CountIsPositive(Extents(dims).value, 0);
      CountIsProduct(dims, Extents(dims).value);
    }
  }

  /** A whole number of rows, the last of which starts before the end, ends at the end. */
  lemma RowEnds(offset: nat, row: nat, rows: nat)
    requires row >= 1 && offset % row == 0 && offset < rows * row
    ensures offset + row <= rows * row
  {
    var q := offset / row;
    assert offset == q * row;
    if q >= rows {
      AtLeast(q, rows, row);
    }
    AtLeast(rows, q + 1, row);
  }

  /** A place in a stride, and the end of that stride. */
  lemma StrideEnds(offset: nat, stride: nat, strides: nat)
    requires stride >= 1 && offset < strides * stride
    ensures offset - offset % stride + stride <= strides * stride
  {
    var q := offset / stride;
    assert offset == q * stride + offset % stride;
    if q >= strides {
      AtLeast(q, strides, stride);
    }
    AtLeast(strides, q + 1, stride);
  }

  /** The last `rank` dimensions of a shape, and the ones before them. */
  lemma Halves(dims: seq<Dim>, rank: nat)
    requires rank <= |dims| && Inhabited(dims)
    ensures var init, last := dims[..|dims| - rank], dims[|dims| - rank..];
            && dims == init + last && Inhabited(init) && Inhabited(last)
            && Product(dims) == Product(init) * Product(last) && Product(init) >= 1 && Product(last) >= 1
            && Product(last) <= Product(dims)
  {
    var init, last := dims[..|dims| - rank], dims[|dims| - rank..];
    assert dims == init + last;
    ProductOfBoth(init, last);
    ProductIsPositive(init);
    ProductIsPositive(last);
    AtLeast(Product(init), 1, Product(last));
  }

  lemma RowFits(types: seq<TypeDesc>, shape: Shape, offset: nat, of: Conformand, global: bool)
    requires Inhabited(shape.dimensions) && Extents(shape.dimensions).Some? && shape.elemSize > 0
    requires offset < Product(shape.dimensions) * shape.elemSize
    requires RowStarts(types, shape, Extents(shape.dimensions).value, offset, of)
    ensures Fits(types, Row(types, shape, of, global), offset, of, Product(shape.dimensions) * shape.elemSize)
  {
    var dims := shape.dimensions;
    var init, last := dims[..|dims| - of.rank], dims[|dims| - of.rank..];
    ElementIsExact(types, shape, of.elem);
    Halves(dims, of.rank);
    CountIsProduct(last, Extents(dims).value[|dims| - of.rank..]);
    var row := Product(last) * shape.elemSize;
    AtLeast(Product(last), 1, shape.elemSize);
    Associates(Product(init), Product(last), shape.elemSize);
    RowEnds(offset, row, Product(init));
  }

  /** Every array answered has the asked rank and element and lies inside the value it is looked for
      in. */
  lemma {:induction false} FoundFromFits(types: seq<TypeDesc>, shape: Shape, offset: nat, of: Conformand, global: bool,
                                         depth: nat, found: ArraySym)
    requires AreLaidOut(types) && Inhabited(shape.dimensions)
    requires shape.elemType.Some? && shape.elemType.value < |types| ==>
               types[shape.elemType.value].Size() <= shape.elemSize
    requires found in ArraysFrom(types, shape, offset, of, global, depth)
    ensures Product(shape.dimensions) >= 1 && Fits(types, found, offset, of, Product(shape.dimensions) * shape.elemSize)
    decreases depth, 0
  {
    var extents := Extents(shape.dimensions).value;
    ExtentsAre(shape.dimensions);
    WholeIsBytes(shape, extents);
    if RowStarts(types, shape, extents, offset, of) && found == Row(types, shape, of, global) {
      RowFits(types, shape, offset, of, global);
    } else {
      var within := offset % shape.elemSize;
      FoundInFits(types, shape.elemType.value, within, of, global, depth - 1, found);
      StrideEnds(offset, shape.elemSize, Product(shape.dimensions));
    }
  }

  lemma WholeIsBytes(shape: Shape, extents: seq<nat>)
    requires Extents(shape.dimensions) == Some(extents)
    ensures CheckedBytes(shape.elemSize, extents).Some? ==>
              CheckedBytes(shape.elemSize, extents).value == Product(shape.dimensions) * shape.elemSize
  {
    ExtentsAre(shape.dimensions);
    if shape.elemSize < U64_LIMIT {
      CheckedBytesIsExact(shape.elemSize, extents);
    }
  }

  lemma {:induction false} FoundInFits(types: seq<TypeDesc>, ty: TypeId, offset: nat, of: Conformand, global: bool,
                                       depth: nat, found: ArraySym)
    requires AreLaidOut(types) && found in ArraysIn(types, ty, offset, of, global, depth)
    ensures ty < |types| && Fits(types, found, offset, of, types[ty].Size())
    decreases depth, 1
  {
    assert IsLaidOut(types, ty);
    match types[ty]
    case Struct(_, fields) =>
      var member := MemberAt(fields, offset).value;
      var i :| 0 <= i < |fields| && fields[i] == member;
      FoundInFits(types, member.ty, offset - member.offset, of, global, depth - 1, found);
    case Array(dims, _, stride, elem) =>
      FoundFromFits(types, Shape(dims, stride, None, Some(elem)), offset, of, global, depth, found);
  }

  /** The array variable an answer lies in. */
  ghost predicate LiesIn(found: ArraySym, arr: ArraySym) {
    && arr.address <= found.address
    && found.address + found.totalElements * found.elemSize <= arr.address + arr.totalElements * arr.elemSize
  }

  lemma {:induction false} AllFoundFit(types: seq<TypeDesc>, arrays: seq<ArraySym>, address: nat, of: Conformand,
                                       found: ArraySym)
    returns (arr: ArraySym)
    requires AreLaidOut(types) && forall i :: 0 <= i < |arrays| ==> IsArray(types, arrays[i])
    requires found in AllFound(types, arrays, address, of)
    ensures arr in arrays && arr.address <= address
    ensures Fits(types, found, address - arr.address, of, arr.totalElements * arr.elemSize)
    decreases |arrays|
  {
    arr := arrays[|arrays| - 1];
    if found in FoundIn(types, arr, address, of) {
      FoundFromFits(types, ShapeOf(arr), address - arr.address, of, arr.global, NESTING, found);
    } else {
      arr := AllFoundFit(types, arrays[..|arrays| - 1], address, of, found);
    }
  }

  /** An array that is answered starts at the address, has the asked rank and element, and lies inside
      the array variable it was found in. */
  lemma BoundArrayIsInside(types: seq<TypeDesc>, arrays: seq<ArraySym>, address: nat, of: Conformand)
    requires AreLaidOut(types) && forall i :: 0 <= i < |arrays| ==> IsArray(types, arrays[i])
    requires BoundArray(types, arrays, address, of).Some?
    ensures var bound := BoundArray(types, arrays, address, of).value;
            && bound.address == address && |bound.dimensions| == of.rank >= 1 && HasElement(types, bound, of.elem)
            && Inhabited(bound.dimensions) && Product(bound.dimensions) == bound.totalElements
            && exists arr :: arr in arrays && LiesIn(bound, arr)
  {
    var found := AllFound(types, arrays, address, of)[0];
    var arr := AllFoundFit(types, arrays, address, of, found);
    assert LiesIn(BoundArray(types, arrays, address, of).value, arr);
  }

  /** So does every element its subscripts reach. */
  lemma ElementIsInside(bound: ArraySym, arr: ArraySym, subs: seq<int>)
    requires LiesIn(bound, arr) && Product(bound.dimensions) == bound.totalElements && InBounds(bound.dimensions, subs)
    ensures arr.address <= bound.address + FlatIndex(bound.dimensions, subs) * bound.elemSize
    ensures bound.address + FlatIndex(bound.dimensions, subs) * bound.elemSize + bound.elemSize
         <= arr.address + arr.totalElements * arr.elemSize
  {
    FlatIndexInRange(bound.dimensions, subs);
    var flat := FlatIndex(bound.dimensions, subs);
    AtLeast(flat, 0, bound.elemSize);
    AtLeast(bound.totalElements, flat + 1, bound.elemSize);
  }

  lemma SameOffset(init: seq<Dim>, last: seq<Dim>, row: seq<int>, subs: seq<int>, stride: nat)
    requires InBounds(init, row) && InBounds(last, subs)
    ensures InBounds(init + last, row + subs)
    ensures FlatIndex(init + last, row + subs) * stride
         == FlatIndex(init, row) * (Product(last) * stride) + FlatIndex(last, subs) * stride
  {
    FlatIndexOfBoth(init, last, row, subs);
    Distributes(FlatIndex(init, row), Product(last), FlatIndex(last, subs), stride);
  }

  /** Which row starts at an offset. */
  lemma RowIndex(offset: nat, rows: nat, elements: nat, stride: nat) returns (flat: nat)
    requires stride >= 1 && elements >= 1 && offset % (elements * stride) == 0 && offset < (rows * elements) * stride
    ensures offset == flat * (elements * stride) && flat < rows
  {
    var bytes := elements * stride;
    AtLeast(elements, 1, stride);
    Associates(rows, elements, stride);
    flat := offset / bytes;
    assert offset == flat * bytes;
    if flat >= rows {
      AtLeast(flat, rows, bytes);
    }
  }

  /** Once the bytes of the whole are counted in 64 bits, so are those of every row, and no other
      product of the search goes past them. */
  lemma RowsAreCounted(shape: Shape, rank: nat)
    requires Extents(shape.dimensions).Some? && rank <= |shape.dimensions| && 0 < shape.elemSize < U64_LIMIT
    requires CheckedBytes(shape.elemSize, Extents(shape.dimensions).value).Some?
    ensures var elements := Count(Extents(shape.dimensions).value[|shape.dimensions| - rank..]);
            1 <= elements <= elements * shape.elemSize < U64_LIMIT
  {
    var extents := Extents(shape.dimensions).value;
    var init, last := extents[..|extents| - rank], extents[|extents| - rank..];
    assert last == Extents(shape.dimensions).value[|shape.dimensions| - rank..];
    CheckedBytesIsExact(shape.elemSize, extents);
    assert extents == init + last;
    CountOfBoth(init, last);
    CountIsPositive(init, 0);
    CountIsPositive(last, shape.elemSize);
    FewerBytes(Count(extents), Count(init), Count(last), shape.elemSize, U64_LIMIT);
  }

  lemma FewerBytes(total: nat, rows: nat, elements: nat, stride: nat, limit: nat)
    requires total == rows * elements && rows >= 1 && elements >= 1 && stride >= 1 && stride * total < limit
    ensures 1 <= elements <= elements * stride < limit
  {
    AtLeast(rows, 1, elements);
    AtLeast(rows * elements, elements, stride);
    AtLeast(stride, 1, elements);
  }

  lemma {:induction false} CountOfBoth(a: seq<nat>, b: seq<nat>)
    ensures Count(a + b) == Count(a) * Count(b)
  {
    if a == [] {
      assert a + b == b;
    } else {
      assert (a + b)[1..] == a[1..] + b;
      CountOfBoth(a[1..], b);
      Associates(a[0], Count(a[1..]), Count(b));
    }
  }
}
