/** Where the elements of an array are: inside it, apart from each other, and each named by a path that
    leads back to it. */
module ElementAddresses {
  import opened Bytes
  import opened DebugTables
  import opened ElementPaths
  import opened Resolvers
  import opened Subscripts
  import opened Texts
  import opened Wrappers

  // ----- The same places, with numbers that know no bound

  /** One step into the layout of a type, by the subscripts that stand there and with no check. */
  ghost function PlaceStep(info: DebugInfo, toks: seq<Access>, global: bool, address: nat, pos: nat, ty: TypeId)
    : Locating
  {
    if ty >= |info.types| then Over(None)
    else match info.types[ty]
      case Scalar(t) =>
        Over(if pos == |toks| then Some(VarLoc(address, t.SizeBytes(), t, global, None, None)) else None)
      case Enum(t) =>
        Over(if pos == |toks| then Some(VarLoc(address, t.SizeBytes(), t, global, None, Some(ty))) else None)
      case Opaque(_, _, _, _) => Over(None)
      case Struct(_, fields) =>
        if pos >= |toks| || !toks[pos].Field? then Over(None)
        else
          var field := FieldNamed(fields, info.fold, toks[pos].name);
          if field.None? then Over(None) else On(address + field.value.offset, pos + 1, field.value.ty)
      case Array(dims, _, stride, elem) =>
        var subs := SubsAt(dims, toks, pos);
        if subs.None? then Over(None)
        else
          SubsAtStand(dims, toks, pos, subs.value);
          FlatIndexInRange(dims, subs.value);
          AtLeast(FlatIndex(dims, subs.value), 0, stride);
          On(address + FlatIndex(dims, subs.value) * stride, pos + |dims|, elem)
  }

  lemma PlaceStepTakesTokens(info: DebugInfo, toks: seq<Access>, global: bool, address: nat, pos: nat, ty: TypeId)
    requires HasDimensions(info.types) && PlaceStep(info, toks, global, address, pos, ty).On?
    ensures pos < PlaceStep(info, toks, global, address, pos, ty).pos <= |toks|
  {
    if info.types[ty].Array? {
      var dims := info.types[ty].dimensions;
      SubsAtStand(dims, toks, pos, SubsAt(dims, toks, pos).value);
    }
  }

  /** The place the accessors from `pos` on name in a value of the type `ty` at `address`. */
  ghost function PlaceFrom(info: DebugInfo, toks: seq<Access>, global: bool, address: nat, pos: nat, ty: TypeId)
    : Option<VarLoc>
    requires HasDimensions(info.types) && pos <= |toks|
    decreases |toks| - pos
  {
    match PlaceStep(info, toks, global, address, pos, ty)
    case Over(found) => found
    case On(next, more, elem) =>
      PlaceStepTakesTokens(info, toks, global, address, pos, ty);
      PlaceFrom(info, toks, global, next, more, elem)
  }

  /** The place they name past the subscripts of an array variable, in its element at `address`. */
  ghost function PlaceAfter(info: DebugInfo, arr: ArraySym, toks: seq<Access>, address: nat): Option<VarLoc>
    requires HasDimensions(info.types) && |arr.dimensions| <= |toks|
  {
    if |arr.dimensions| == |toks| then
      var t :- arr.elemTy;
      Some(VarLoc(address, arr.elemSize, t, arr.global, None,
                  if arr.elemType.Some? && arr.elemType.value < |info.types| && info.types[arr.elemType.value].Enum?
                  then arr.elemType else None))
    else
      var ty :- arr.elemType;
      PlaceFrom(info, toks, arr.global, address, |arr.dimensions|, ty)
  }

  /** The place they name in an array variable. */
  ghost function PlaceIn(info: DebugInfo, arr: ArraySym, toks: seq<Access>): Option<VarLoc>
    requires HasDimensions(info.types) && arr.dimensions != []
  {
    var subs :- SubsAt(arr.dimensions, toks, 0);
    SubsAtStand(arr.dimensions, toks, 0, subs);
    PlaceAfter(info, arr, toks, AddressOf(arr, subs))
  }

  /** Where the element at some subscripts is. */
  ghost function AddressOf(arr: ArraySym, subs: seq<int>): (address: nat)
    requires InBounds(arr.dimensions, subs)
    ensures arr.address <= address
  {
    FlatIndexInRange(arr.dimensions, subs);
    AtLeast(FlatIndex(arr.dimensions, subs), 0, arr.elemSize);
    arr.address + FlatIndex(arr.dimensions, subs) * arr.elemSize
  }

  /** Whether a place is in the bytes from `address` up to `end`. */
  ghost predicate IsWithin(place: Option<VarLoc>, address: nat, end: nat) {
    place.Some? ==> address <= place.value.address && place.value.address + place.value.size <= end
  }

  /** An element of a shape at `address` is in its bytes, and its address is the checked one. */
  lemma ElementFits(dims: seq<Dim>, total: nat, stride: nat, address: nat, subs: seq<int>)
    requires IsShape(dims, total, stride) && InBounds(dims, subs) && address + total * stride < U32_LIMIT
    ensures 0 <= FlatIndex(dims, subs) < total
    ensures Displaced(address, FlatIndex(dims, subs), stride) == Some(address + FlatIndex(dims, subs) * stride)
    ensures address + FlatIndex(dims, subs) * stride + stride <= address + total * stride
    ensures address <= address + FlatIndex(dims, subs) * stride
  {
    FlatIndexInRange(dims, subs);
    AtLeast(FlatIndex(dims, subs), 0, stride);
    AtLeast(total, FlatIndex(dims, subs) + 1, stride);
  }

  /** In a value that is in memory, the checks of a step refuse nothing, and it stays in the value. */
  lemma StepIsPlace(info: DebugInfo, toks: seq<Access>, global: bool, address: nat, pos: nat, ty: TypeId)
    requires AreLaidOut(info.types) && pos <= |toks| && ty < |info.types|
    requires address + info.types[ty].Size() < U32_LIMIT
    ensures var step := LocateStep(info, toks, global, address, pos, ty);
            && step == PlaceStep(info, toks, global, address, pos, ty)
            && (step.On? ==>
                  && step.ty < |info.types| && address <= step.address
                  && step.address + info.types[step.ty].Size() <= address + info.types[ty].Size())
            && (step.Over? ==> IsWithin(step.found, address, address + info.types[ty].Size()))
  {
    assert IsLaidOut(info.types, ty);
    match info.types[ty]
    case Struct(size, fields) =>
      if pos < |toks| && toks[pos].Field? {
        var field := FieldNamed(fields, info.fold, toks[pos].name);
        if field.Some? {
          var i :| 0 <= i < |fields| && fields[i] == field.value;
        }
      }
    case Array(dims, total, stride, elem) =>
      FlattenIsExact(dims, toks, pos);
      var subs := SubsAt(dims, toks, pos);
      if subs.Some? {
        ElementFits(dims, total, stride, address, subs.value);
      }
    case _ =>
  }

  /** So what is located in it is what is there, with no check. */
  lemma {:induction false} LocateIsPlace(info: DebugInfo, toks: seq<Access>, global: bool, address: nat, pos: nat,
                                         ty: TypeId)
    requires HasDimensions(info.types) && IsLocatable(info.types) && AreLaidOut(info.types)
    requires pos <= |toks| && ty < |info.types|
    requires address + info.types[ty].Size() < U32_LIMIT
    ensures LocateFrom(info, toks, global, address, pos, ty) == PlaceFrom(info, toks, global, address, pos, ty)
    ensures IsWithin(PlaceFrom(info, toks, global, address, pos, ty), address, address + info.types[ty].Size())
    decreases |toks| - pos
  {
    StepIsPlace(info, toks, global, address, pos, ty);
    var step := LocateStep(info, toks, global, address, pos, ty);
    if step.On? {
      StepTakesTokens(info, toks, global, address, pos, ty);
      LocateIsPlace(info, toks, global, step.address, step.pos, step.ty);
    }
  }

  /** On well-formed tables the place a path names in an array is the one it names with numbers that know
      no bound: no subscript in its bounds is refused, and the place is inside the array. */
  lemma LocateInIsPlace(info: DebugInfo, arr: ArraySym, toks: seq<Access>)
    requires IsWellFormed(info) && IsArray(info.types, arr)
    ensures LocateIn(info, arr, toks) == PlaceIn(info, arr, toks)
    ensures IsWithin(PlaceIn(info, arr, toks), arr.address, arr.address + arr.totalElements * arr.elemSize)
  {
    FlattenIsExact(arr.dimensions, toks, 0);
    var subs := SubsAt(arr.dimensions, toks, 0);
    if subs.Some? {
      SubsAtStand(arr.dimensions, toks, 0, subs.value);
      ElementFits(arr.dimensions, arr.totalElements, arr.elemSize, arr.address, subs.value);
      if |arr.dimensions| < |toks| && arr.elemType.Some? {
        LocateIsPlace(info, toks, arr.global, arr.address + FlatIndex(arr.dimensions, subs.value) * arr.elemSize,
                      |arr.dimensions|, arr.elemType.value);
      }
    }
  }

  lemma Apart(a: int, b: int, stride: nat)
    requires a != b
    ensures a * stride + stride <= b * stride || b * stride + stride <= a * stride
  {
    if a < b {
      AtLeast(b, a + 1, stride);
    } else {
      AtLeast(a, b + 1, stride);
    }
  }

  /** Distinct subscripts reach elements that share no byte. */
  lemma ElementsAreApart(arr: ArraySym, s: seq<int>, t: seq<int>)
    requires InBounds(arr.dimensions, s) && InBounds(arr.dimensions, t) && s != t
    ensures || FlatIndex(arr.dimensions, s) * arr.elemSize + arr.elemSize <= FlatIndex(arr.dimensions, t) * arr.elemSize
            || FlatIndex(arr.dimensions, t) * arr.elemSize + arr.elemSize <= FlatIndex(arr.dimensions, s) * arr.elemSize
  {
    var a, b := FlatIndex(arr.dimensions, s), FlatIndex(arr.dimensions, t);
    if a == b {
      FlatIndexIsInjective(arr.dimensions, s, t);
    }
    Apart(a, b, arr.elemSize);
  }

  // ----- From an address to a path

  /** Whether an element of `arr` starts at `address`; nothing when its bytes do not fit 32 bits. */
  function StartsAt(arr: ArraySym, address: nat): Option<bool>
    requires arr.elemSize > 0
  {
    var bytes :- Checked32(arr.totalElements * arr.elemSize);
    if address < arr.address then Some(false)
    else
      var end :- Checked32(arr.address + bytes);
      Some(address < end && (address - arr.address) % arr.elemSize == 0)
  }

  /** The element of a described array that starts at `address`: of the first array, in the order of the
      table, that has one. An array too large for 32 bits ends the search. */
  function ElementAt(arrays: seq<ArraySym>, address: nat): Option<string> {
    if arrays == [] then None
    else if arrays[0].elemSize == 0 then ElementAt(arrays[1..], address)
    else
      var arr := arrays[0];
      var here :- StartsAt(arr, address);
      if here then
        ElementIndex(arr, address);
        Some(ElementPath(arr.path, (address - arr.address) / arr.elemSize, arr.dimensions))
      else ElementAt(arrays[1..], address)
  }

  lemma ElementIndex(arr: ArraySym, address: nat)
    requires arr.elemSize > 0 && StartsAt(arr, address) == Some(true)
    ensures var flat := (address - arr.address) / arr.elemSize;
            0 <= flat < arr.totalElements && arr.address + flat * arr.elemSize == address
  {
    var flat := (address - arr.address) / arr.elemSize;
    assert address - arr.address == flat * arr.elemSize;
    if flat >= arr.totalElements {
      AtLeast(flat, arr.totalElements, arr.elemSize);
    }
  }

  method FindElementAt(arrays: seq<ArraySym>, address: nat) returns (r: Option<string>)
    ensures r == ElementAt(arrays, address)
  {
    for i := 0 to |arrays|
      invariant ElementAt(arrays, address) == ElementAt(arrays[i..], address)
    {
      var arr := arrays[i];
      assert arrays[i..][0] == arr && arrays[i..][1..] == arrays[i + 1..];
      if arr.elemSize > 0 {
        var here :- StartsAt(arr, address);
        if here {
          ElementIndex(arr, address);
          r := Some(ElementPath(arr.path, (address - arr.address) / arr.elemSize, arr.dimensions));
          return;
        }
      }
    }
    return None;
  }

  /** The array that element is of. */
  ghost function HolderOf(arrays: seq<ArraySym>, address: nat): Option<ArraySym> {
    if arrays == [] then None
    else if arrays[0].elemSize == 0 then HolderOf(arrays[1..], address)
    else
      var here :- StartsAt(arrays[0], address);
      if here then Some(arrays[0]) else HolderOf(arrays[1..], address)
  }

  lemma {:induction false} ElementIsOfHolder(arrays: seq<ArraySym>, address: nat)
    ensures HolderOf(arrays, address).Some? <==> ElementAt(arrays, address).Some?
    ensures HolderOf(arrays, address).Some? ==>
              var arr := HolderOf(arrays, address).value;
              && arr in arrays && arr.elemSize > 0 && StartsAt(arr, address) == Some(true)
              && (address - arr.address) / arr.elemSize >= 0
              && ElementAt(arrays, address)
                 == Some(ElementPath(arr.path, (address - arr.address) / arr.elemSize, arr.dimensions))
  {
    if arrays != [] {
      ElementIsOfHolder(arrays[1..], address);
      if arrays[0].elemSize > 0 && StartsAt(arrays[0], address) == Some(true) {
        ElementIndex(arrays[0], address);
      }
    }
  }

  /** Whether the element at the index `flat` starts at an address. */
  ghost predicate IsElementAt(arr: ArraySym, address: nat, flat: nat) {
    arr.elemSize > 0 && flat < arr.totalElements && address == arr.address + flat * arr.elemSize
  }

  /** Whether an array ends the search for an address: its bytes do not fit 32 bits, or it is at or before the address
      and does not end in them. */
  ghost predicate EndsSearch(arr: ArraySym, address: nat) {
    var bytes := arr.totalElements * arr.elemSize;
    arr.elemSize > 0 && (bytes >= U32_LIMIT || (arr.address <= address && arr.address + bytes >= U32_LIMIT))
  }

  lemma StartIsExact(arr: ArraySym, address: nat)
    requires arr.elemSize > 0
    ensures StartsAt(arr, address).None? <==> EndsSearch(arr, address)
    ensures StartsAt(arr, address).Some? ==>
              (StartsAt(arr, address).value <==> exists flat: nat :: IsElementAt(arr, address, flat))
    ensures forall flat: nat :: IsElementAt(arr, address, flat) ==>
              address >= arr.address && flat == (address - arr.address) / arr.elemSize
  {
    forall flat: nat | IsElementAt(arr, address, flat)
      ensures arr.address <= address < arr.address + arr.totalElements * arr.elemSize
      ensures flat == (address - arr.address) / arr.elemSize && (address - arr.address) % arr.elemSize == 0
    {
      AtLeast(flat, 0, arr.elemSize);
      AtLeast(arr.totalElements, flat + 1, arr.elemSize);
      Multiple(flat, arr.elemSize);
    }
    if StartsAt(arr, address) == Some(true) {
      ElementIndex(arr, address);
      assert IsElementAt(arr, address, (address - arr.address) / arr.elemSize);
    }
  }

  lemma Multiple(flat: nat, stride: nat)
    requires stride > 0
    ensures flat * stride / stride == flat && flat * stride % stride == 0
  {
    var n := flat * stride;
    assert n == (n / stride) * stride + n % stride;
    PlaceIsUnique(n / stride, n % stride, flat, 0, stride);
  }

  /** Whether the array `i` is the first with an element at an address, and none before it ends the search. */
  ghost predicate IsFirstAt(arrays: seq<ArraySym>, address: nat, i: nat, flat: nat) {
    && i < |arrays| && IsElementAt(arrays[i], address, flat) && !EndsSearch(arrays[i], address)
    && forall j :: 0 <= j < i ==>
         !EndsSearch(arrays[j], address) && forall other: nat :: !IsElementAt(arrays[j], address, other)
  }

  /** An address is given the path of an element if and only if it is the first element there. */
  lemma {:induction false} ElementAtIsExact(arrays: seq<ArraySym>, address: nat, path: string)
    ensures ElementAt(arrays, address) == Some(path)
       <==> exists i: nat, flat: nat ::
              IsFirstAt(arrays, address, i, flat) && path == ElementPath(arrays[i].path, flat, arrays[i].dimensions)
  {
    if arrays != [] {
      var arr, rest := arrays[0], arrays[1..];
      ElementAtIsExact(rest, address, path);
      if arr.elemSize > 0 {
        StartIsExact(arr, address);
      }
      if arr.elemSize == 0 || StartsAt(arr, address) == Some(false) {
        forall i: nat, flat: nat
          ensures IsFirstAt(arrays, address, i + 1, flat) <==> IsFirstAt(rest, address, i, flat)
        {
          LaterIsFirst(arrays, address, i, flat);
        }
        forall i: nat, flat: nat | IsFirstAt(arrays, address, i, flat)
          ensures i > 0 && IsFirstAt(rest, address, i - 1, flat)
        {
          assert IsFirstAt(arrays, address, (i - 1) + 1, flat);
        }
      } else if StartsAt(arr, address) == Some(true) {
        assert IsFirstAt(arrays, address, 0, (address - arr.address) / arr.elemSize);
      }
    }
  }

  lemma LaterIsFirst(arrays: seq<ArraySym>, address: nat, i: nat, flat: nat)
    requires arrays != [] && !EndsSearch(arrays[0], address)
    requires forall other: nat :: !IsElementAt(arrays[0], address, other)
    ensures IsFirstAt(arrays, address, i + 1, flat) <==> IsFirstAt(arrays[1..], address, i, flat)
  {
    var rest := arrays[1..];
    assert forall j :: 0 <= j < |rest| ==> rest[j] == arrays[j + 1];
    if IsFirstAt(arrays, address, i + 1, flat) {
      forall j | 0 <= j < i
        ensures !EndsSearch(rest[j], address) && forall other: nat :: !IsElementAt(rest[j], address, other)
      {
        assert rest[j] == arrays[j + 1];
      }
    }
    if IsFirstAt(rest, address, i, flat) {
      forall j | 0 <= j < i + 1
        ensures !EndsSearch(arrays[j], address) && forall other: nat :: !IsElementAt(arrays[j], address, other)
      {
        if j > 0 {
          assert arrays[j] == rest[j - 1];
        }
      }
    }
  }

  /** Whether no other array of the table has `address` among its bytes or at their end. */
  ghost predicate IsAlone(info: DebugInfo, arr: ArraySym, address: nat) {
    forall other {:trigger other in info.arrays} :: other in info.arrays && other != arr ==>
      address < other.address || other.address + other.totalElements * other.elemSize < address
  }

  /** The path given to the address of an element resolves to what the array its name is looked up as, the
      last of that name, has at the element's subscripts. */
  lemma ElementResolves(info: DebugInfo, address: nat)
    returns (arr: ArraySym, named: ArraySym, subs: seq<int>, flat: nat)
    requires IsWellFormed(info) && HasPlainNames(info) && HolderOf(info.arrays, address).Some?
    ensures HolderOf(info.arrays, address) == Some(arr) && arr in info.arrays
    ensures address == arr.address + flat * arr.elemSize && flat < arr.totalElements
    ensures ArrayNamed(info.arrays, info.fold, info.fold(arr.path)) == Some(named)
    ensures SubsOf(arr.dimensions, flat) == Some(subs)
    ensures FlattenFrom(arr.dimensions, Indices(subs), 0, 0) == Some(flat)
    ensures ElementAt(info.arrays, address).Some?
    ensures Resolve(info, ElementAt(info.arrays, address).value) == LocateIn(info, named, Indices(subs))
  {
    arr := HolderOf(info.arrays, address).value;
    ElementIsOfHolder(info.arrays, address);
    ElementIndex(arr, address);
    assert IsArray(info.types, arr);
    flat := (address - arr.address) / arr.elemSize;
    ElementPathRoundTrip(arr.path, flat, arr.dimensions);
    subs := SubsOf(arr.dimensions, flat).value;
    named := ArrayNamed(info.arrays, info.fold, info.fold(arr.path)).value;
    ResolvesIn(info, arr, named, subs);
  }

  /** Where no other array is at the address, that is the address itself if and only if the array of the
      element is the last of its name and its elements are scalars. */
  lemma AddressRoundTrip(info: DebugInfo, address: nat)
    requires IsWellFormed(info) && HasPlainNames(info) && HolderOf(info.arrays, address).Some?
    ensures ElementAt(info.arrays, address).Some?
    ensures var arr := HolderOf(info.arrays, address).value;
            var isLast := ArrayNamed(info.arrays, info.fold, info.fold(arr.path)) == Some(arr);
            var loc := Resolve(info, ElementAt(info.arrays, address).value);
            isLast || IsAlone(info, arr, address) ==>
              (loc.Some? && loc.value.address == address <==> isLast && arr.elemTy.Some?)
  {
    var arr, named, subs, flat := ElementResolves(info, address);
    if named == arr {
      assert IsArray(info.types, arr);
      LocatesElement(info, arr, subs, flat);
    } else if IsAlone(info, arr, address) {
      LocatesElsewhere(info, arr, named, address, Indices(subs));
    }
  }

  lemma LocatesElsewhere(info: DebugInfo, arr: ArraySym, named: ArraySym, address: nat, toks: seq<Access>)
    requires IsWellFormed(info) && IsAlone(info, arr, address) && named in info.arrays && named != arr
    ensures LocateIn(info, named, toks).Some? ==> LocateIn(info, named, toks).value.address != address
  {
    assert IsArray(info.types, named);
    LocateInIsPlace(info, named, toks);
  }

  /** Where a later array has the name, the path leads to that one: two arrays of one element named `x`, at 0
      and at 100. */
  lemma SharedName(info: DebugInfo, first: ArraySym, last: ArraySym)
    requires info.symbols == [] && info.arrays == [first, last] && info.pointers == [] && info.types == []
    requires forall s :: info.fold(s) == s
    requires first == ArraySym("x", 0, [(0, 0)], 1, 4, Some(DInt), true, None)
    requires last == first.(address := 100)
    ensures IsWellFormed(info) && HasPlainNames(info) && HolderOf(info.arrays, 0) == Some(first)
    ensures IsAlone(info, first, 0)
    ensures var path := ElementAt(info.arrays, 0);
            path.Some? && Resolve(info, path.value).Some? && Resolve(info, path.value).value.address == 100
  {
    OneElement(info.types, first);
    OneElement(info.types, last);
    assert StartsAt(first, 0) == Some(true);
    var arr, named, subs, flat := ElementResolves(info, 0);
    LocatesElement(info, last, subs, flat);
  }

  lemma OneElement(types: seq<TypeDesc>, arr: ArraySym)
    requires arr.dimensions == [(0, 0)] && arr.totalElements == 1 && arr.elemSize == 4 && arr.elemType == None
    requires arr.elemTy == Some(DInt) && arr.address <= 100
    ensures IsArray(types, arr)
  {
    assert Product([(0, 0)]) == 1;
  }

  /** The path of an element is looked up as an array of the name and the subscripts. */
  lemma ResolvesIn(info: DebugInfo, arr: ArraySym, named: ArraySym, subs: seq<int>)
    requires IsLocatable(info.types) && HasPlainNames(info) && arr in info.arrays
    requires ArrayNamed(info.arrays, info.fold, info.fold(arr.path)) == Some(named)
    requires Tokenize(Bracketed(subs)) == Some(Indices(subs))
    ensures Resolve(info, arr.path + Bracketed(subs)) == LocateIn(info, named, Indices(subs))
  {
    var tail := Bracketed(subs)[1..];
    assert Bracketed(subs) == ['['] + tail;
    var path, n := arr.path + Bracketed(subs), |arr.path|;
    assert path[n] == '[' && '[' in path && '[' in info.fold(path);
    assert SymbolNamed(info.symbols, info.fold, info.fold(path)).None?;
    assert path == arr.path + ['['] + tail;
    FindAfter(arr.path, '[', tail);
    assert path[..n] == arr.path && path[n..] == Bracketed(subs);
  }

  lemma LocatesElement(info: DebugInfo, arr: ArraySym, subs: seq<int>, flat: nat)
    requires IsLocatable(info.types) && IsArray(info.types, arr) && |subs| == |arr.dimensions|
    requires FlattenFrom(arr.dimensions, Indices(subs), 0, 0) == Some(flat) && flat < arr.totalElements
    ensures var loc := LocateIn(info, arr, Indices(subs));
            (loc.Some? <==> arr.elemTy.Some?) && (loc.Some? ==> loc.value.address == arr.address + flat * arr.elemSize)
  {
    DisplacedFits(arr.address, flat, arr.totalElements, arr.elemSize);
  }

  lemma DisplacedFits(address: nat, flat: nat, total: nat, stride: nat)
    requires flat < total < U32_LIMIT && address + total * stride < U32_LIMIT
    ensures Displaced(address, flat, stride) == Some(address + flat * stride)
  {
    AtLeast(flat, 0, stride);
    AtLeast(total, flat + 1, stride);
  }
}
