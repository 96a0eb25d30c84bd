/** Every array that starts at an address, by the way to it through the layouts, and that the search for
    the array an `ARRAY[*]` is bound to finds each of them, once for each way. */
module BoundPlaces {
  import opened BoundArrays
  import opened Bytes
  import opened DebugTables
  import opened ElementPaths
  import opened Subscripts
  import opened Texts
  import opened Wrappers

  /** The way from an array or a value to an array in it: at its first subscripts, in its element at some,
      or in a member. */
  datatype Way = RowAt(row: seq<int>) | ElementAt(subs: seq<int>, rest: Way) | MemberOf(index: nat, rest: Way)

  /** A way in one of the array variables. */
  datatype Spot = Spot(index: nat, way: Way)

  // ----- What stands where

  /** Whether the last dimensions of `shape`, at the first subscripts `row`, are an array of the asked rank
      and element `offset` bytes in. */
  ghost predicate IsRow(types: seq<TypeDesc>, shape: Shape, offset: nat, of: Conformand, row: seq<int>) {
    && 1 <= of.rank <= |shape.dimensions| && shape.elemSize > 0
    && ElementIn(types, shape) == Some(ElementNamed(types, of.elem))
    && var first := |shape.dimensions| - of.rank;
       var init, last := shape.dimensions[..first], shape.dimensions[first..];
       InBounds(init, row) && offset == FlatIndex(init, row) * (Product(last) * shape.elemSize)
  }

  /** Whether an offset is in the stride of the element at `subs`. */
  ghost predicate IsInElement(shape: Shape, subs: seq<int>, offset: nat) {
    InBounds(shape.dimensions, subs)
    && var start := FlatIndex(shape.dimensions, subs) * shape.elemSize; 0 <= start <= offset < start + shape.elemSize
  }

  ghost predicate IsInMember(types: seq<TypeDesc>, field: FieldDesc, offset: nat) {
    field.ty < |types| && field.offset <= offset < field.offset + types[field.ty].Size()
  }

  /** Whether the way leads to the array `found`, of the asked rank and element, that starts `offset` bytes
      into an array. */
  ghost predicate StandsFrom(types: seq<TypeDesc>, shape: Shape, offset: nat, of: Conformand, global: bool,
                             depth: nat, way: Way, found: ArraySym)
    decreases way, 0
  {
    match way
    case RowAt(row) => IsRow(types, shape, offset, of, row) && found == Row(types, shape, of, global)
    case ElementAt(subs, rest) =>
      && depth > 0 && shape.elemType.Some? && IsInElement(shape, subs, offset)
      && StandsIn(types, shape.elemType.value, offset - FlatIndex(shape.dimensions, subs) * shape.elemSize,
                  of, global, depth - 1, rest, found)
    case MemberOf(_, _) => false
  }

  /** Into a value of the type `ty`. */
  ghost predicate StandsIn(types: seq<TypeDesc>, ty: TypeId, offset: nat, of: Conformand, global: bool,
                           depth: nat, way: Way, found: ArraySym)
    decreases way, 1
  {
    ty < |types|
    && match types[ty]
       case Struct(_, fields) =>
         && way.MemberOf? && depth > 0 && way.index < |fields| && IsInMember(types, fields[way.index], offset)
         && StandsIn(types, fields[way.index].ty, offset - fields[way.index].offset, of, global, depth - 1,
                     way.rest, found)
       case Array(dims, _, stride, elem) =>
         StandsFrom(types, Shape(dims, stride, None, Some(elem)), offset, of, global, depth, way, found)
       case _ => false
  }

  /** Whether the member `i` starts the farthest of those at or before an offset, the last of them. */
  ghost predicate IsFarthest(fields: seq<FieldDesc>, offset: nat, i: nat) {
    && i < |fields| && fields[i].offset <= offset
    && forall j :: 0 <= j < |fields| && fields[j].offset <= offset ==>
         fields[j].offset <= fields[i].offset && (fields[j].offset == fields[i].offset ==> j <= i)
  }

  /** Whether the way goes, in each STRUCT, into the member that starts the farthest at or before the offset. */
  ghost predicate IsSeenFrom(types: seq<TypeDesc>, shape: Shape, offset: nat, way: Way)
    decreases way, 0
  {
    match way
    case ElementAt(subs, rest) =>
      && shape.elemType.Some? && IsInElement(shape, subs, offset)
      && IsSeenIn(types, shape.elemType.value, offset - FlatIndex(shape.dimensions, subs) * shape.elemSize, rest)
    case _ => true
  }

  ghost predicate IsSeenIn(types: seq<TypeDesc>, ty: TypeId, offset: nat, way: Way)
    decreases way, 1
  {
    ty < |types|
    && match types[ty]
       case Struct(_, fields) =>
         && way.MemberOf? && IsFarthest(fields, offset, way.index)
         && IsSeenIn(types, fields[way.index].ty, offset - fields[way.index].offset, way.rest)
       case Array(dims, _, stride, elem) =>
         IsSeenFrom(types, Shape(dims, stride, None, Some(elem)), offset, way)
       case _ => true
  }

  /** Every way that is seen. */
  ghost function AllFrom(types: seq<TypeDesc>, shape: Shape, offset: nat, of: Conformand, global: bool, depth: nat)
    : iset<(Way, ArraySym)>
  {
    iset way: Way, found: ArraySym |
      && StandsFrom(types, shape, offset, of, global, depth, way, found)
      && IsSeenFrom(types, shape, offset, way) :: (way, found)
  }

  ghost function AllIn(types: seq<TypeDesc>, ty: TypeId, offset: nat, of: Conformand, global: bool, depth: nat)
    : iset<(Way, ArraySym)>
  {
    iset way: Way, found: ArraySym |
      StandsIn(types, ty, offset, of, global, depth, way, found) && IsSeenIn(types, ty, offset, way) :: (way, found)
  }

  /** Whether the way, in the array variable `i`, leads to an array of the asked rank and element at the
      address. */
  ghost predicate StandsThere(types: seq<TypeDesc>, arrays: seq<ArraySym>, address: nat, of: Conformand,
                           spot: Spot, found: ArraySym)
  {
    spot.index < |arrays|
    && var arr := arrays[spot.index];
       && arr.address <= address < arr.address + arr.totalElements * arr.elemSize
       && StandsFrom(types, ShapeOf(arr), address - arr.address, of, arr.global, 32, spot.way, found)
  }

  /** Whether the way to it is seen. */
  ghost predicate IsSeen(types: seq<TypeDesc>, arrays: seq<ArraySym>, address: nat, spot: Spot) {
    && spot.index < |arrays| && arrays[spot.index].address <= address
    && IsSeenFrom(types, ShapeOf(arrays[spot.index]), address - arrays[spot.index].address, spot.way)
  }

  ghost predicate IsSeenThere(types: seq<TypeDesc>, arrays: seq<ArraySym>, address: nat, of: Conformand,
                              spot: Spot, found: ArraySym)
  {
    StandsThere(types, arrays, address, of, spot, found) && IsSeen(types, arrays, address, spot)
  }

  ghost function AllAt(types: seq<TypeDesc>, arrays: seq<ArraySym>, address: nat, of: Conformand)
    : iset<(Spot, ArraySym)>
  {
    iset spot: Spot, found: ArraySym | IsSeenThere(types, arrays, address, of, spot, found) :: (spot, found)
  }

  // ----- Well-formed tables

  /** No member starts where a member listed before it does, or inside another, that takes any bytes. */
  ghost predicate AreApart(types: seq<TypeDesc>, fields: seq<FieldDesc>) {
    forall i, j ::
      0 <= i < |fields| && 0 <= j < |fields| && i != j && IsInMember(types, fields[i], fields[j].offset) ==>
        fields[j].offset == fields[i].offset && j < i
  }

  ghost predicate HaveMembersApart(types: seq<TypeDesc>) {
    forall id :: 0 <= id < |types| && types[id].Struct? ==> AreApart(types, types[id].fields)
  }

  ghost predicate IsSolid(types: seq<TypeDesc>, shape: Shape) {
    && Product(shape.dimensions) >= 0 && IsShape(shape.dimensions, Product(shape.dimensions), shape.elemSize)
    && (shape.elemType.Some? ==>
          shape.elemType.value < |types| && types[shape.elemType.value].Size() <= shape.elemSize)
  }

  // ----- Lists of ways

  ghost predicate IsAmong<W>(ways: seq<W>, founds: seq<ArraySym>, way: W, found: ArraySym) {
    exists k :: 0 <= k < |ways| && k < |founds| && ways[k] == way && founds[k] == found
  }

  /** Whether `founds` are the arrays that all the ways lead to, one for each way. */
  ghost predicate AreWays<W(!new)>(all: iset<(W, ArraySym)>, founds: seq<ArraySym>, ways: seq<W>) {
    && |ways| == |founds|
    && (forall i, j :: 0 <= i < j < |ways| ==> ways[i] != ways[j])
    && (forall way, found :: (way, found) in all <==> IsAmong(ways, founds, way, found))
  }

  lemma WaysOfNone<W(!new)>(all: iset<(W, ArraySym)>)
    requires forall way, found :: (way, found) !in all
    ensures AreWays(all, [], [])
  {
  }

  lemma WaysOfOne<W(!new)>(way: W, found: ArraySym)
    ensures AreWays(iset{(way, found)}, [found], [way])
  {
    assert [way][0] == way && [found][0] == found;
  }

  lemma WaysOfBoth<W(!new)>(a: iset<(W, ArraySym)>, b: iset<(W, ArraySym)>,
                            left: seq<ArraySym>, right: seq<ArraySym>, first: seq<W>, second: seq<W>)
    requires AreWays(a, left, first) && AreWays(b, right, second)
    requires forall way, found, other :: (way, found) in a ==> (way, other) !in b
    ensures AreWays(a + b, left + right, first + second)
  {
    var ways, founds := first + second, left + right;
    forall i, j | 0 <= i < j < |ways|
      ensures ways[i] != ways[j]
    {
      if i < |first| <= j {
        assert IsAmong(first, left, ways[i], left[i]) && IsAmong(second, right, ways[j], right[j - |first|]);
        assert (ways[i], left[i]) in a && (ways[j], right[j - |first|]) in b;
      }
    }
    forall way, found
      ensures (way, found) in a + b <==> IsAmong(ways, founds, way, found)
    {
      if (way, found) in a {
        var k :| 0 <= k < |first| && first[k] == way && left[k] == found;
        assert ways[k] == way && founds[k] == found;
      }
      if (way, found) in b {
        var k :| 0 <= k < |second| && second[k] == way && right[k] == found;
        assert ways[|first| + k] == way && founds[|first| + k] == found;
      }
      if IsAmong(ways, founds, way, found) {
        var k :| 0 <= k < |ways| && ways[k] == way && founds[k] == found;
        if k < |first| {
          assert IsAmong(first, left, way, found);
        } else {
          assert second[k - |first|] == way && right[k - |first|] == found;
          assert IsAmong(second, right, way, found);
        }
      }
    }
  }

  /** The ways that go one step further. */
  lemma WaysOfWrapped<V(!new), W(!new)>(inner: iset<(V, ArraySym)>, founds: seq<ArraySym>, ways: seq<V>, wrap: V -> W,
                                        all: iset<(W, ArraySym)>)
    returns (wrapped: seq<W>)
    requires AreWays(inner, founds, ways) && forall v, w :: wrap(v) == wrap(w) ==> v == w
    requires forall way, found :: (way, found) in all <==> exists v :: way == wrap(v) && (v, found) in inner
    ensures AreWays(all, founds, wrapped)
  {
    wrapped := seq(|ways|, k requires 0 <= k < |ways| => wrap(ways[k]));
    forall way, found
      ensures (way, found) in all <==> IsAmong(wrapped, founds, way, found)
    {
      if (way, found) in all {
        var v :| way == wrap(v) && (v, found) in inner;
        var k :| 0 <= k < |ways| && ways[k] == v && founds[k] == found;
        assert wrapped[k] == way;
      }
      if IsAmong(wrapped, founds, way, found) {
        var k :| 0 <= k < |wrapped| && wrapped[k] == way && founds[k] == found;
        assert IsAmong(ways, founds, ways[k], found);
      }
    }
  }

  // ----- Which rows and elements there are at an offset

  /** There is a row at an offset if and only if the search says that one starts there. */
  lemma RowStartsExactly(types: seq<TypeDesc>, shape: Shape, offset: nat, of: Conformand)
    requires IsSolid(types, shape) && shape.elemSize > 0 && offset < Product(shape.dimensions) * shape.elemSize
    requires Extents(shape.dimensions).Some?
    ensures RowStarts(types, shape, Extents(shape.dimensions).value, offset, of)
       <==> exists row :: IsRow(types, shape, offset, of, row)
  {
    ElementIsExact(types, shape, of.elem);
    if RowStarts(types, shape, Extents(shape.dimensions).value, offset, of) {
      RowIsCounted(types, shape, offset, of);
      var row := RowHere(types, shape, offset, of);
    }
    if row :| IsRow(types, shape, offset, of, row) {
      RowIsFound(types, shape, offset, of, row);
    }
  }

  lemma RowHere(types: seq<TypeDesc>, shape: Shape, offset: nat, of: Conformand) returns (row: seq<int>)
    requires Inhabited(shape.dimensions) && Product(shape.dimensions) <= I64_MAX && shape.elemSize > 0
    requires offset < Product(shape.dimensions) * shape.elemSize
    requires 1 <= of.rank <= |shape.dimensions| && ElementIn(types, shape) == Some(ElementNamed(types, of.elem))
    requires var bytes := Product(shape.dimensions[|shape.dimensions| - of.rank..]) * shape.elemSize;
             bytes > 0 && offset % bytes == 0
    ensures IsRow(types, shape, offset, of, row)
  {
    row := SubsOfRow(shape.dimensions, of.rank, shape.elemSize, offset);
  }

  lemma RowIsCounted(types: seq<TypeDesc>, shape: Shape, offset: nat, of: Conformand)
    requires shape.elemSize > 0 && Extents(shape.dimensions).Some?
    requires RowStarts(types, shape, Extents(shape.dimensions).value, offset, of)
    ensures var bytes := Product(shape.dimensions[|shape.dimensions| - of.rank..]) * shape.elemSize;
            bytes > 0 && offset % bytes == 0
  {
    var extents := Extents(shape.dimensions).value[|shape.dimensions| - of.rank..];
    CountIsPositive(extents, shape.elemSize);
    CountIsProduct(shape.dimensions[|shape.dimensions| - of.rank..], extents);
  }

  lemma SubsOfRow(dims: seq<Dim>, rank: nat, stride: nat, offset: nat) returns (row: seq<int>)
    requires Inhabited(dims) && rank <= |dims| && Product(dims) <= I64_MAX && stride >= 1
    requires offset < Product(dims) * stride
    requires var bytes := Product(dims[|dims| - rank..]) * stride; bytes > 0 && offset % bytes == 0
    ensures InBounds(dims[..|dims| - rank], row)
    ensures offset == FlatIndex(dims[..|dims| - rank], row) * (Product(dims[|dims| - rank..]) * stride)
  {
    var init, last := dims[..|dims| - rank], dims[|dims| - rank..];
    Halves(dims, rank);
    var flat := RowIndex(offset, Product(init), Product(last), stride);
    AtLeast(Product(last), 1, Product(init));
    SubsOfIsExact(init, flat);
    row := SubsOf(init, flat).value;
  }

  lemma RowIsFound(types: seq<TypeDesc>, shape: Shape, offset: nat, of: Conformand, row: seq<int>)
    requires IsSolid(types, shape) && IsRow(types, shape, offset, of, row) && Extents(shape.dimensions).Some?
    ensures RowStarts(types, shape, Extents(shape.dimensions).value, offset, of)
  {
    var dims := shape.dimensions;
    var init, last := dims[..|dims| - of.rank], dims[|dims| - of.rank..];
    ElementIsExact(types, shape, of.elem);
    Halves(dims, of.rank);
    CountIsProduct(last, Extents(dims).value[|dims| - of.rank..]);
    FlatIndexInRange(init, row);
    AtLeast(Product(last), 1, shape.elemSize);
    IsMultiple(FlatIndex(init, row), Product(last) * shape.elemSize);
  }

  lemma OneRow(types: seq<TypeDesc>, shape: Shape, offset: nat, of: Conformand, a: seq<int>, b: seq<int>)
    requires IsSolid(types, shape) && IsRow(types, shape, offset, of, a) && IsRow(types, shape, offset, of, b)
    ensures a == b
  {
    var dims := shape.dimensions;
    var init, last := dims[..|dims| - of.rank], dims[|dims| - of.rank..];
    Halves(dims, of.rank);
    AtLeast(Product(last), 1, shape.elemSize);
    PlaceIsUnique(FlatIndex(init, a), 0, FlatIndex(init, b), 0, Product(last) * shape.elemSize);
    FlatIndexIsInjective(init, a, b);
  }

  lemma IsMultiple(n: nat, bytes: nat)
    requires bytes > 0
    ensures (n * bytes) % bytes == 0
  {
    PlaceIsUnique(n, 0, n * bytes / bytes, n * bytes % bytes, bytes);
  }

  /** An offset is in the stride of one element. */
  lemma ElementExactly(shape: Shape, offset: nat) returns (subs: seq<int>)
    requires Inhabited(shape.dimensions) && Product(shape.dimensions) <= I64_MAX && shape.elemSize > 0
    requires offset < Product(shape.dimensions) * shape.elemSize
    ensures IsInElement(shape, subs, offset)
    ensures offset - FlatIndex(shape.dimensions, subs) * shape.elemSize == offset % shape.elemSize
    ensures forall other :: IsInElement(shape, other, offset) ==> other == subs
  {
    subs := ElementHere(shape, offset);
    forall other | IsInElement(shape, other, offset)
      ensures other == subs
    {
      OneElement(shape, offset, other, subs);
    }
  }

  lemma ElementHere(shape: Shape, offset: nat) returns (subs: seq<int>)
    requires Inhabited(shape.dimensions) && Product(shape.dimensions) <= I64_MAX && shape.elemSize > 0
    requires offset < Product(shape.dimensions) * shape.elemSize
    ensures IsInElement(shape, subs, offset)
    ensures offset - FlatIndex(shape.dimensions, subs) * shape.elemSize == offset % shape.elemSize
  {
    var flat, start := Divided(offset, shape.elemSize, Product(shape.dimensions));
    SubsOfIsExact(shape.dimensions, flat);
    subs := SubsOf(shape.dimensions, flat).value;
    assert FlatIndex(shape.dimensions, subs) * shape.elemSize == start;
  }

  lemma Divided(offset: nat, stride: nat, total: nat) returns (flat: nat, start: nat)
    requires stride > 0 && offset < total * stride
    ensures flat < total && start == flat * stride && start <= offset < start + stride
    ensures offset - start == offset % stride
  {
    flat, start := offset / stride, offset - offset % stride;
    if flat >= total {
      AtLeast(flat, total, stride);
    }
  }

  lemma OneElement(shape: Shape, offset: nat, a: seq<int>, b: seq<int>)
    requires Inhabited(shape.dimensions) && IsInElement(shape, a, offset) && IsInElement(shape, b, offset)
    ensures a == b
  {
    var first, second := FlatIndex(shape.dimensions, a), FlatIndex(shape.dimensions, b);
    FlatIndexInRange(shape.dimensions, a);
    FlatIndexInRange(shape.dimensions, b);
    PlaceIsUnique(first, offset - first * shape.elemSize, second, offset - second * shape.elemSize, shape.elemSize);
    FlatIndexIsInjective(shape.dimensions, a, b);
  }

  /** What stands in an array is in its bytes. */
  lemma StandsInside(types: seq<TypeDesc>, shape: Shape, offset: nat, of: Conformand, global: bool, depth: nat,
                     way: Way, found: ArraySym)
    requires Inhabited(shape.dimensions) && StandsFrom(types, shape, offset, of, global, depth, way, found)
    ensures shape.elemSize > 0 && offset < Product(shape.dimensions) * shape.elemSize
  {
    if way.RowAt? {
      RowIsInside(types, shape, offset, of, way.row);
    } else {
      FlatIndexInRange(shape.dimensions, way.subs);
      AtLeast(Product(shape.dimensions), FlatIndex(shape.dimensions, way.subs) + 1, shape.elemSize);
    }
  }

  lemma RowIsInside(types: seq<TypeDesc>, shape: Shape, offset: nat, of: Conformand, row: seq<int>)
    requires Inhabited(shape.dimensions) && IsRow(types, shape, offset, of, row)
    ensures offset < Product(shape.dimensions) * shape.elemSize
  {
    var dims := shape.dimensions;
    var init, last := dims[..|dims| - of.rank], dims[|dims| - of.rank..];
    Halves(dims, of.rank);
    FlatIndexInRange(init, row);
    RowBytes(FlatIndex(init, row), Product(init), Product(last), shape.elemSize);
  }

  lemma RowBytes(flat: nat, rows: nat, elements: nat, stride: nat)
    requires flat < rows && elements >= 1 && stride >= 1
    ensures flat * (elements * stride) < (rows * elements) * stride
  {
    AtLeast(elements, 1, stride);
    AtLeast(rows, flat + 1, elements * stride);
    Associates(rows, elements, stride);
  }

  // ----- The search finds them all, and nothing else

  /** Every row that starts at the offset, of which there is at most one. */
  ghost function RowsFrom(types: seq<TypeDesc>, shape: Shape, offset: nat, of: Conformand, global: bool)
    : iset<(Way, ArraySym)>
  {
    iset row: seq<int> | IsRow(types, shape, offset, of, row) :: (RowAt(row), Row(types, shape, of, global))
  }

  /** Every array in an element. */
  ghost function ElementsFrom(types: seq<TypeDesc>, shape: Shape, offset: nat, of: Conformand, global: bool,
                              depth: nat): iset<(Way, ArraySym)>
  {
    iset way: Way, found: ArraySym |
      && way.ElementAt? && StandsFrom(types, shape, offset, of, global, depth, way, found)
      && IsSeenFrom(types, shape, offset, way) :: (way, found)
  }

  lemma WaysOfRows(types: seq<TypeDesc>, shape: Shape, offset: nat, of: Conformand, global: bool)
    returns (ways: seq<Way>)
    requires IsSolid(types, shape) && shape.elemSize > 0 && offset < Product(shape.dimensions) * shape.elemSize
    requires Extents(shape.dimensions).Some?
    ensures AreWays(RowsFrom(types, shape, offset, of, global),
                    if RowStarts(types, shape, Extents(shape.dimensions).value, offset, of)
                    then [Row(types, shape, of, global)] else [], ways)
  {
    var all := RowsFrom(types, shape, offset, of, global);
    RowStartsExactly(types, shape, offset, of);
    if row :| IsRow(types, shape, offset, of, row) {
      forall other | IsRow(types, shape, offset, of, other)
        ensures other == row
      {
        OneRow(types, shape, offset, of, other, row);
      }
      ways := [RowAt(row)];
      WaysOfOne(RowAt(row), Row(types, shape, of, global));
      assert all == iset{(RowAt(row), Row(types, shape, of, global))};
    } else {
      ways := [];
      WaysOfNone(all);
    }
  }

  lemma WaysOfElements(types: seq<TypeDesc>, shape: Shape, offset: nat, of: Conformand, global: bool, depth: nat,
                       founds: seq<ArraySym>, inner: seq<Way>)
    returns (ways: seq<Way>)
    requires IsSolid(types, shape) && shape.elemSize > 0 && offset < Product(shape.dimensions) * shape.elemSize
    requires depth > 0 && shape.elemType.Some?
    requires AreWays(AllIn(types, shape.elemType.value, offset % shape.elemSize, of, global, depth - 1), founds, inner)
    ensures AreWays(ElementsFrom(types, shape, offset, of, global, depth), founds, ways)
  {
    var subs := ElementExactly(shape, offset);
    var within := AllIn(types, shape.elemType.value, offset % shape.elemSize, of, global, depth - 1);
    var all := ElementsFrom(types, shape, offset, of, global, depth);
    forall way, found
      ensures (way, found) in all <==> exists rest :: way == ElementAt(subs, rest) && (rest, found) in within
    {
      if (way, found) in all {
        assert way == ElementAt(subs, way.rest) && (way.rest, found) in within;
      }
    }
    ways := WaysOfWrapped(within, founds, inner, rest => ElementAt(subs, rest), all);
  }

  lemma AllAreRowsAndElements(types: seq<TypeDesc>, shape: Shape, offset: nat, of: Conformand, global: bool, depth: nat)
    ensures AllFrom(types, shape, offset, of, global, depth)
         == RowsFrom(types, shape, offset, of, global) + ElementsFrom(types, shape, offset, of, global, depth)
  {
    forall way, found
      ensures (way, found) in AllFrom(types, shape, offset, of, global, depth)
         <==> || (way, found) in RowsFrom(types, shape, offset, of, global)
              || (way, found) in ElementsFrom(types, shape, offset, of, global, depth)
    {
      if way.RowAt? && StandsFrom(types, shape, offset, of, global, depth, way, found) {
        assert IsRow(types, shape, offset, of, way.row);
      }
    }
  }

  /** The arrays that start at an offset of an array are those the search finds there. */
  lemma {:induction false} WaysFrom(types: seq<TypeDesc>, shape: Shape, offset: nat, of: Conformand, global: bool,
                                    depth: nat)
    returns (ways: seq<Way>)
    requires AreLaidOut(types) && IsSolid(types, shape)
    ensures AreWays(AllFrom(types, shape, offset, of, global, depth),
                    ArraysFrom(types, shape, offset, of, global, depth), ways)
    decreases depth, 0
  {
    ExtentsAre(shape.dimensions);
    WholeIsCounted(shape);
    if shape.elemSize == 0 || offset >= Product(shape.dimensions) * shape.elemSize {
      ways := [];
      NothingStandsPast(types, shape, offset, of, global, depth);
      WaysOfNone(AllFrom(types, shape, offset, of, global, depth));
    } else {
      var rows := WaysOfRows(types, shape, offset, of, global);
      var elements := [];
      if depth == 0 || shape.elemType.None? {
        WaysOfNone(ElementsFrom(types, shape, offset, of, global, depth));
      } else {
        var inner := WaysIn(types, shape.elemType.value, offset % shape.elemSize, of, global, depth - 1);
        elements := WaysOfElements(types, shape, offset, of, global, depth,
          ArraysIn(types, shape.elemType.value, offset % shape.elemSize, of, global, depth - 1), inner);
      }
      AllAreRowsAndElements(types, shape, offset, of, global, depth);
      WaysOfBoth(RowsFrom(types, shape, offset, of, global), ElementsFrom(types, shape, offset, of, global, depth),
        if RowStarts(types, shape, Extents(shape.dimensions).value, offset, of)
        then [Row(types, shape, of, global)] else [],
        if depth == 0 || shape.elemType.None? then []
        else ArraysIn(types, shape.elemType.value, offset % shape.elemSize, of, global, depth - 1),
        rows, elements);
      ways := rows + elements;
    }
  }

  lemma WholeIsCounted(shape: Shape)
    requires Product(shape.dimensions) >= 0 && IsShape(shape.dimensions, Product(shape.dimensions), shape.elemSize)
    requires Extents(shape.dimensions).Some?
    ensures CheckedBytes(shape.elemSize, Extents(shape.dimensions).value)
         == Some(Product(shape.dimensions) * shape.elemSize)
  {
    CountIsProduct(shape.dimensions, Extents(shape.dimensions).value);
    BytesAreCounted(shape.elemSize, Extents(shape.dimensions).value);
  }

  lemma BytesAreCounted(stride: nat, extents: seq<nat>)
    requires forall i :: 0 <= i < |extents| ==> extents[i] >= 1
    requires Count(extents) * stride < U32_LIMIT
    ensures CheckedBytes(stride, extents) == Some(Count(extents) * stride)
  {
    CountIsPositive(extents, stride);
    CheckedBytesIsExact(stride, extents);
  }

  lemma NothingStandsPast(types: seq<TypeDesc>, shape: Shape, offset: nat, of: Conformand, global: bool, depth: nat)
    requires Inhabited(shape.dimensions)
    requires shape.elemSize == 0 || offset >= Product(shape.dimensions) * shape.elemSize
    ensures AllFrom(types, shape, offset, of, global, depth) == iset{}
  {
    forall way, found | StandsFrom(types, shape, offset, of, global, depth, way, found)
      ensures false
    {
      StandsInside(types, shape, offset, of, global, depth, way, found);
    }
  }

  lemma {:induction false} WaysIn(types: seq<TypeDesc>, ty: TypeId, offset: nat, of: Conformand, global: bool,
                                  depth: nat)
    returns (ways: seq<Way>)
    requires AreLaidOut(types)
    ensures AreWays(AllIn(types, ty, offset, of, global, depth), ArraysIn(types, ty, offset, of, global, depth), ways)
    decreases depth, 1
  {
    var all := AllIn(types, ty, offset, of, global, depth);
    if ty < |types| && types[ty].Array? {
      assert IsLaidOut(types, ty);
      var shape := Shape(types[ty].dimensions, types[ty].elemSize, None, Some(types[ty].elem));
      ways := WaysFrom(types, shape, offset, of, global, depth);
      assert all == AllFrom(types, shape, offset, of, global, depth);
    } else if ty < |types| && types[ty].Struct? && depth > 0 && MemberAt(types[ty].fields, offset).Some? {
      var member := MemberAt(types[ty].fields, offset).value;
      var inner := WaysIn(types, member.ty, offset - member.offset, of, global, depth - 1);
      ways := WaysOfMember(types, ty, offset, of, global, depth, inner);
    } else {
      ways := [];
      if ty < |types| && types[ty].Struct? && depth > 0 {
        NoMemberAt(types[ty].fields, offset);
      }
      WaysOfNone(all);
    }
  }

  lemma {:induction false} NoMemberAt(fields: seq<FieldDesc>, offset: nat)
    requires MemberAt(fields, offset).None?
    ensures forall i :: 0 <= i < |fields| ==> fields[i].offset > offset
    decreases |fields|
  {
    if fields != [] {
      NoMemberAt(fields[..|fields| - 1], offset);
    }
  }

  /** The member an offset is in is the last of those that start the farthest. */
  lemma {:induction false} MemberIsLast(fields: seq<FieldDesc>, offset: nat) returns (i: nat)
    requires MemberAt(fields, offset).Some?
    ensures IsFarthest(fields, offset, i) && fields[i] == MemberAt(fields, offset).value
    decreases |fields|
  {
    var n := |fields| - 1;
    var before := MemberAt(fields[..n], offset);
    if before.None? {
      i := n;
      NoMemberAt(fields[..n], offset);
    } else {
      i := MemberIsLast(fields[..n], offset);
      if fields[n].offset <= offset && before.value.offset <= fields[n].offset {
        i := n;
      }
    }
  }

  /** What stands in a value is in its bytes. */
  lemma StandsInSize(types: seq<TypeDesc>, ty: TypeId, offset: nat, of: Conformand, global: bool, depth: nat,
                     way: Way, found: ArraySym)
    requires AreLaidOut(types) && StandsIn(types, ty, offset, of, global, depth, way, found)
    ensures offset < types[ty].Size()
  {
    assert IsLaidOut(types, ty);
    if types[ty].Array? {
      var shape := Shape(types[ty].dimensions, types[ty].elemSize, None, Some(types[ty].elem));
      StandsInside(types, shape, offset, of, global, depth, way, found);
    }
  }

  lemma WaysOfMember(types: seq<TypeDesc>, ty: TypeId, offset: nat, of: Conformand, global: bool, depth: nat,
                     inner: seq<Way>)
    returns (ways: seq<Way>)
    requires AreLaidOut(types) && ty < |types| && types[ty].Struct? && depth > 0
    requires MemberAt(types[ty].fields, offset).Some?
    requires var member := MemberAt(types[ty].fields, offset).value;
             AreWays(AllIn(types, member.ty, offset - member.offset, of, global, depth - 1),
                     ArraysIn(types, ty, offset, of, global, depth), inner)
    ensures AreWays(AllIn(types, ty, offset, of, global, depth), ArraysIn(types, ty, offset, of, global, depth), ways)
  {
    var fields := types[ty].fields;
    var i := MemberIsLast(fields, offset);
    var within := AllIn(types, fields[i].ty, offset - fields[i].offset, of, global, depth - 1);
    var all := AllIn(types, ty, offset, of, global, depth);
    forall way, found
      ensures (way, found) in all <==> exists rest :: way == MemberOf(i, rest) && (rest, found) in within
    {
      if (way, found) in all {
        assert way.index == i;
        assert way == MemberOf(i, way.rest) && (way.rest, found) in within;
      }
      if rest :| way == MemberOf(i, rest) && (rest, found) in within {
        StandsInSize(types, fields[i].ty, offset - fields[i].offset, of, global, depth - 1, rest, found);
      }
    }
    ways := WaysOfWrapped(within, ArraysIn(types, ty, offset, of, global, depth), inner, rest => MemberOf(i, rest),
                          all);
  }

  // ----- In the arrays of a module

  /** Every way in one array variable. */
  ghost function AllWithin(types: seq<TypeDesc>, arrays: seq<ArraySym>, i: nat, address: nat, of: Conformand)
    : iset<(Spot, ArraySym)>
  {
    iset spot: Spot, found: ArraySym |
      spot.index == i && IsSeenThere(types, arrays, address, of, spot, found) :: (spot, found)
  }

  lemma ArrayIsSolid(types: seq<TypeDesc>, arr: ArraySym)
    requires IsArray(types, arr)
    ensures IsSolid(types, ShapeOf(arr))
  {
  }

  lemma WaysWithin(types: seq<TypeDesc>, arrays: seq<ArraySym>, i: nat, address: nat, of: Conformand)
    returns (spots: seq<Spot>)
    requires AreLaidOut(types) && i < |arrays| && IsArray(types, arrays[i])
    ensures AreWays(AllWithin(types, arrays, i, address, of), FoundIn(types, arrays[i], address, of), spots)
  {
    var arr := arrays[i];
    var all := AllWithin(types, arrays, i, address, of);
    if Takes(arr, address) {
      var offset := address - arr.address;
      ArrayIsSolid(types, arr);
      var ways := WaysFrom(types, ShapeOf(arr), offset, of, arr.global, NESTING);
      var inner := AllFrom(types, ShapeOf(arr), offset, of, arr.global, NESTING);
      forall spot, found
        ensures (spot, found) in all <==> exists way :: spot == Spot(i, way) && (way, found) in inner
      {
        if (spot, found) in all {
          assert spot == Spot(i, spot.way) && (spot.way, found) in inner;
        }
      }
      spots := WaysOfWrapped(inner, FoundIn(types, arr, address, of), ways, way => Spot(i, way), all);
    } else {
      spots := [];
      WaysOfNone(all);
    }
  }

  lemma AllAtStep(types: seq<TypeDesc>, arrays: seq<ArraySym>, address: nat, of: Conformand)
    requires arrays != []
    ensures var n := |arrays| - 1;
            AllAt(types, arrays, address, of)
            == AllAt(types, arrays[..n], address, of) + AllWithin(types, arrays, n, address, of)
  {
    var n := |arrays| - 1;
    forall spot, found
      ensures IsSeenThere(types, arrays, address, of, spot, found)
         <==> || IsSeenThere(types, arrays[..n], address, of, spot, found)
              || (spot.index == n && IsSeenThere(types, arrays, address, of, spot, found))
    {
      if spot.index < n {
        assert arrays[spot.index] == arrays[..n][spot.index];
      }
    }
  }

  /** The arrays that start at an address, by ways that are seen, are those the search finds. */
  lemma {:induction false} WaysAt(types: seq<TypeDesc>, arrays: seq<ArraySym>, address: nat, of: Conformand)
    returns (spots: seq<Spot>)
    requires AreLaidOut(types) && forall i :: 0 <= i < |arrays| ==> IsArray(types, arrays[i])
    ensures AreWays(AllAt(types, arrays, address, of), AllFound(types, arrays, address, of), spots)
    decreases |arrays|
  {
    if arrays == [] {
      spots := [];
      WaysOfNone(AllAt(types, arrays, address, of));
    } else {
      var n := |arrays| - 1;
      var before := WaysAt(types, arrays[..n], address, of);
      var last := WaysWithin(types, arrays, n, address, of);
      WaysOfBoth(AllAt(types, arrays[..n], address, of), AllWithin(types, arrays, n, address, of),
        AllFound(types, arrays[..n], address, of), FoundIn(types, arrays[n], address, of), before, last);
      AllAtStep(types, arrays, address, of);
      spots := before + last;
    }
  }

  /** Whether the way is the only one that is seen to an array of the asked rank and element at the address. */
  ghost predicate IsOnlySeen(types: seq<TypeDesc>, arrays: seq<ArraySym>, address: nat, of: Conformand,
                             spot: Spot, found: ArraySym)
  {
    && IsSeenThere(types, arrays, address, of, spot, found)
    && forall other, another :: IsSeenThere(types, arrays, address, of, other, another) ==> other == spot
  }

  /** The search answers an array if and only if one way that is seen leads to one of the asked rank and
      element at the address, and it answers the array that way leads to. */
  lemma BoundArrayIsExact(types: seq<TypeDesc>, arrays: seq<ArraySym>, address: nat, of: Conformand, bound: ArraySym)
    requires AreLaidOut(types) && forall i :: 0 <= i < |arrays| ==> IsArray(types, arrays[i])
    ensures BoundArray(types, arrays, address, of) == Some(bound)
       <==> exists spot, found ::
              IsOnlySeen(types, arrays, address, of, spot, found) && bound == found.(address := address)
  {
    var spots := WaysAt(types, arrays, address, of);
    var founds := AllFound(types, arrays, address, of);
    if |founds| == 1 {
      OneIsOnly(types, arrays, address, of, founds, spots);
    }
    if spot, found :| IsOnlySeen(types, arrays, address, of, spot, found) && bound == found.(address := address) {
      OnlyIsOne(types, arrays, address, of, founds, spots, spot, found);
    }
  }

  lemma OneIsOnly(types: seq<TypeDesc>, arrays: seq<ArraySym>, address: nat, of: Conformand,
                  founds: seq<ArraySym>, spots: seq<Spot>)
    requires AreWays(AllAt(types, arrays, address, of), founds, spots) && |founds| == 1
    ensures IsOnlySeen(types, arrays, address, of, spots[0], founds[0])
  {
    assert IsAmong(spots, founds, spots[0], founds[0]);
    assert (spots[0], founds[0]) in AllAt(types, arrays, address, of);
    forall other, another | IsSeenThere(types, arrays, address, of, other, another)
      ensures other == spots[0]
    {
      assert (other, another) in AllAt(types, arrays, address, of);
      assert IsAmong(spots, founds, other, another);
    }
  }

  lemma OnlyIsOne(types: seq<TypeDesc>, arrays: seq<ArraySym>, address: nat, of: Conformand,
                  founds: seq<ArraySym>, spots: seq<Spot>, spot: Spot, found: ArraySym)
    requires AreWays(AllAt(types, arrays, address, of), founds, spots)
    requires IsOnlySeen(types, arrays, address, of, spot, found)
    ensures founds == [found]
  {
    assert (spot, found) in AllAt(types, arrays, address, of);
    assert IsAmong(spots, founds, spot, found);
    OnlyIsLast(types, arrays, address, of, founds, spots, spot, found, 0);
    OnlyIsLast(types, arrays, address, of, founds, spots, spot, found, |founds| - 1);
  }

  lemma OnlyIsLast(types: seq<TypeDesc>, arrays: seq<ArraySym>, address: nat, of: Conformand,
                   founds: seq<ArraySym>, spots: seq<Spot>, spot: Spot, found: ArraySym, k: nat)
    requires AreWays(AllAt(types, arrays, address, of), founds, spots) && k < |founds|
    requires IsOnlySeen(types, arrays, address, of, spot, found)
    ensures spots[k] == spot
  {
    assert IsAmong(spots, founds, spots[k], founds[k]);
    assert (spots[k], founds[k]) in AllAt(types, arrays, address, of);
  }

  /** So an array variable of scalars, the one at its address, is what is answered there to who asks for its own
      rank and scalar, a text being asked for by any capacity: with its own dimensions, stride and number of
      elements. */
  lemma WholeIsBound(types: seq<TypeDesc>, arrays: seq<ArraySym>, i: nat, of: Conformand)
    requires AreLaidOut(types) && forall j :: 0 <= j < |arrays| ==> IsArray(types, arrays[j])
    requires i < |arrays| && arrays[i].elemSize > 0 && arrays[i].elemType == None && arrays[i].elemTy.Some?
    requires of.rank == |arrays[i].dimensions| && of.elem < |types| && types[of.elem].Scalar?
    requires var t, u := arrays[i].elemTy.value, types[of.elem].scalar; t == u || (t.String? && u.String?)
    requires forall j :: 0 <= j < |arrays| && j != i ==>
               arrays[i].address < arrays[j].address
               || arrays[j].address + arrays[j].totalElements * arrays[j].elemSize <= arrays[i].address
    ensures BoundArray(types, arrays, arrays[i].address, of) == Some(arrays[i].(path := ""))
  {
    var arr := arrays[i];
    var spot, found := Spot(i, RowAt([])), Row(types, ShapeOf(arr), of, arr.global);
    WholeStands(types, arr, of);
    assert IsSeenThere(types, arrays, arr.address, of, spot, found);
    forall other, another | IsSeenThere(types, arrays, arr.address, of, other, another)
      ensures other == spot
    {
      assert other.index == i;
      assert other.way.RowAt? && other.way.row == [];
    }
    assert IsOnlySeen(types, arrays, arr.address, of, spot, found);
    assert arr.dimensions[0..] == arr.dimensions;
    BoundArrayIsExact(types, arrays, arr.address, of, arr.(path := ""));
  }

  lemma WholeStands(types: seq<TypeDesc>, arr: ArraySym, of: Conformand)
    requires IsArray(types, arr) && arr.elemSize > 0 && of.rank == |arr.dimensions|
    requires ElementIn(types, ShapeOf(arr)) == Some(ElementNamed(types, of.elem))
    ensures IsRow(types, ShapeOf(arr), 0, of, []) && arr.totalElements * arr.elemSize > 0
    ensures forall row :: IsRow(types, ShapeOf(arr), 0, of, row) ==> row == []
  {
    ProductIsPositive(arr.dimensions);
    AtLeast(arr.totalElements, 1, arr.elemSize);
    var none: seq<Dim> := [];
    assert arr.dimensions[..0] == none && FlatIndex(none, []) == 0;
  }

  // ----- Which ways are seen

  /** Every way is seen where the members of a STRUCT are apart. */
  lemma {:induction false} AllAreSeenFrom(types: seq<TypeDesc>, shape: Shape, offset: nat, of: Conformand, global: bool,
                                          depth: nat, way: Way, found: ArraySym)
    requires HaveMembersApart(types) && StandsFrom(types, shape, offset, of, global, depth, way, found)
    ensures IsSeenFrom(types, shape, offset, way)
    decreases way, 0
  {
    if way.ElementAt? {
      var start := FlatIndex(shape.dimensions, way.subs) * shape.elemSize;
      AllAreSeenIn(types, shape.elemType.value, offset - start, of, global, depth - 1, way.rest, found);
    }
  }

  lemma {:induction false} AllAreSeenIn(types: seq<TypeDesc>, ty: TypeId, offset: nat, of: Conformand, global: bool,
                                        depth: nat, way: Way, found: ArraySym)
    requires HaveMembersApart(types) && StandsIn(types, ty, offset, of, global, depth, way, found)
    ensures IsSeenIn(types, ty, offset, way)
    decreases way, 1
  {
    match types[ty]
    case Struct(_, fields) =>
      assert AreApart(types, fields);
      forall j | 0 <= j < |fields| && fields[j].offset <= offset
        ensures fields[j].offset <= fields[way.index].offset
        ensures fields[j].offset == fields[way.index].offset ==> j <= way.index
      {
        assert fields[way.index].offset <= fields[j].offset ==> IsInMember(types, fields[way.index], fields[j].offset);
      }
      AllAreSeenIn(types, fields[way.index].ty, offset - fields[way.index].offset, of, global, depth - 1, way.rest,
                   found);
    case Array(dims, _, stride, elem) =>
      AllAreSeenFrom(types, Shape(dims, stride, None, Some(elem)), offset, of, global, depth, way, found);
  }

  /** Whether the way is the only one to an array of the asked rank and element at the address. */
  ghost predicate IsOnlyWay(types: seq<TypeDesc>, arrays: seq<ArraySym>, address: nat, of: Conformand,
                            spot: Spot, found: ArraySym)
  {
    && StandsThere(types, arrays, address, of, spot, found)
    && forall other, another :: StandsThere(types, arrays, address, of, other, another) ==> other == spot
  }

  lemma WayIsSeen(types: seq<TypeDesc>, arrays: seq<ArraySym>, address: nat, of: Conformand, spot: Spot,
                  found: ArraySym)
    requires HaveMembersApart(types) && StandsThere(types, arrays, address, of, spot, found)
    ensures IsSeenThere(types, arrays, address, of, spot, found)
  {
    var arr := arrays[spot.index];
    AllAreSeenFrom(types, ShapeOf(arr), address - arr.address, of, arr.global, NESTING, spot.way, found);
  }

  /** So there the search answers an array if and only if one way leads to one of the asked rank and element at
      the address. */
  lemma OnlyWayIsBound(types: seq<TypeDesc>, arrays: seq<ArraySym>, address: nat, of: Conformand, bound: ArraySym)
    requires AreLaidOut(types) && HaveMembersApart(types) && forall i :: 0 <= i < |arrays| ==> IsArray(types, arrays[i])
    ensures BoundArray(types, arrays, address, of) == Some(bound)
       <==> exists spot, found ::
              IsOnlyWay(types, arrays, address, of, spot, found) && bound == found.(address := address)
  {
    forall spot, found | StandsThere(types, arrays, address, of, spot, found)
      ensures IsSeenThere(types, arrays, address, of, spot, found)
    {
      WayIsSeen(types, arrays, address, of, spot, found);
    }
    forall spot, found
      ensures IsOnlyWay(types, arrays, address, of, spot, found)
         <==> IsOnlySeen(types, arrays, address, of, spot, found)
    {
    }
    BoundArrayIsExact(types, arrays, address, of, bound);
  }

  /** A STRUCT in which an array of one number starts where a later member does. */
  const HIDING_TYPES := [Scalar(DInt), Array([(0, 0)], 1, 4, 0),
                         Struct(4, [FieldDesc("a", 0, 1), FieldDesc("b", 0, 0)])]

  const HIDING_ARRAY := ArraySym("x", 0, [(0, 0)], 1, 4, None, true, Some(2))

  /** There the array is not found, though it is alone at its address. */
  lemma HiddenMember() returns (spot: Spot, found: ArraySym)
    ensures AreLaidOut(HIDING_TYPES) && IsArray(HIDING_TYPES, HIDING_ARRAY)
    ensures StandsThere(HIDING_TYPES, [HIDING_ARRAY], 0, Conformand(1, 0), spot, found)
    ensures BoundArray(HIDING_TYPES, [HIDING_ARRAY], 0, Conformand(1, 0)) == None
  {
    spot, found := HiddenStands();
    HidingIsLaidOut();
    NothingIsFound();
    FoundInOne(HIDING_TYPES, HIDING_ARRAY, 0, Conformand(1, 0));
  }

  lemma HidingIsLaidOut()
    ensures AreLaidOut(HIDING_TYPES) && IsArray(HIDING_TYPES, HIDING_ARRAY)
  {
    assert Product([(0, 0)]) == 1;
  }

  lemma FoundInOne(types: seq<TypeDesc>, arr: ArraySym, address: nat, of: Conformand)
    ensures AllFound(types, [arr], address, of) == FoundIn(types, arr, address, of)
  {
    assert [arr][..0] == [];
    assert AllFound(types, [], address, of) == [];
  }

  lemma HiddenStands() returns (spot: Spot, found: ArraySym)
    ensures StandsThere(HIDING_TYPES, [HIDING_ARRAY], 0, Conformand(1, 0), spot, found)
  {
    var dims: seq<Dim> := [(0, 0)];
    var inner, of := Shape(dims, 4, None, Some(0)), Conformand(1, 0);
    assert Product(dims) == 1 && dims[..0] == [] && dims[0..] == dims && FlatIndex(dims, [0]) == 0;
    found := Row(HIDING_TYPES, inner, of, true);
    spot := Spot(0, ElementAt([0], MemberOf(0, RowAt([]))));
    assert IsRow(HIDING_TYPES, inner, 0, of, []);
    assert StandsIn(HIDING_TYPES, 1, 0, of, true, 30, RowAt([]), found);
    assert StandsIn(HIDING_TYPES, 2, 0, of, true, 31, MemberOf(0, RowAt([])), found);
  }

  lemma NothingIsFound()
    ensures FoundIn(HIDING_TYPES, HIDING_ARRAY, 0, Conformand(1, 0)) == []
  {
    var fields := HIDING_TYPES[2].fields;
    assert MemberAt(fields, 0) == Some(fields[1]);
    assert ArraysIn(HIDING_TYPES, 2, 0, Conformand(1, 0), true, 31) == [];
  }
}
