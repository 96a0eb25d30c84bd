/** The tables a compiled module describes its variables with. */
module DebugTables {
  import opened Bytes
  import opened Subscripts
  import opened Wrappers

  /** Elementary types. */
  datatype SymType =
    | Bool | SInt | Int | DInt | LInt | USInt | UInt | UDInt | ULInt
    | Byte | Word | DWord | LWord | Real | LReal | Char
    | Time | LTime | Date | LDate | Tod | LTod | DateAndTime | LDateTime
    | String(capacity: nat)
  {
    /** The slot of a value, in bytes, counted in 32 bits. */
    function SizeBytes(): nat {
      match this
      case String(capacity) => (4 + capacity) % U32_LIMIT
      case LInt | ULInt | LWord | LReal | LTime | LDate | LTod | LDateTime => 8
      case _ => 4
    }
  }

  type TypeId = nat

  datatype FieldDesc = FieldDesc(name: string, offset: nat, ty: TypeId)

  /** What an `ARRAY[*]` says of the array it is bound to. */
  datatype Conformand = Conformand(rank: nat, elem: TypeId)

  /** The layout of one type. */
  datatype TypeDesc =
    | Scalar(scalar: SymType)
    | Struct(size: nat, fields: seq<FieldDesc>)
    | Array(dimensions: seq<Dim>, totalElements: nat, elemSize: nat, elem: TypeId)
    | Opaque(opaqueSize: nat, target: Option<TypeId>, byRef: bool, conformand: Option<Conformand>)
    | Enum(storage: SymType)
  {
    /** How many bytes a value takes. */
    function Size(): nat {
      match this
      case Scalar(t) => t.SizeBytes()
      case Struct(size, _) => size
      case Array(_, total, elemSize, _) => total * elemSize
      case Opaque(size, _, _, _) => size
      case Enum(storage) => storage.SizeBytes()
    }
  }

  /** The shape of an array variable. */
  datatype ArraySym = ArraySym(
    path: string,
    address: nat,
    dimensions: seq<Dim>,
    totalElements: nat,
    elemSize: nat,
    elemTy: Option<SymType>,
    global: bool,
    elemType: Option<TypeId>
  )

  /** Where a value that is part of a wider one sits in it. */
  datatype SymBits = SymBits(shift: nat, width: nat)

  /** A variable of an elementary type. */
  datatype Symbol = Symbol(
    path: string,
    address: nat,
    size: nat,
    ty: SymType,
    global: bool,
    namedType: Option<TypeId>,
    bits: Option<SymBits>
  )

  /** A pointer in memory: four bytes that hold an address, or zero. */
  datatype PointerSym = PointerSym(
    path: string,
    address: nat,
    global: bool,
    target: Option<TypeId>,
    byRef: bool,
    conformand: Option<Conformand>
  )

  /** Where a value lives and how it decodes. */
  datatype VarLoc = VarLoc(
    address: nat,
    size: nat,
    ty: SymType,
    global: bool,
    bits: Option<SymBits>,
    named: Option<TypeId>
  )

  /** `n`, when it fits 32 bits. */
  function Checked32(n: int): (r: Option<nat>)
    ensures r.Some? ==> r.value == n
  {
    if 0 <= n < U32_LIMIT then Some(n) else None
  }

  /** `base + flat * stride`, each step checked. */
  function Displaced(base: nat, flat: int, stride: nat): Option<nat> {
    var index :- Checked32(flat);
    var bytes :- Checked32(index * stride);
    Checked32(base + bytes)
  }

  // ----- Well-formed tables

  /** An array of `total` elements `stride` bytes apart: at least one dimension, each with an element,
      and no more bytes than an address counts. */
  ghost predicate IsShape(dims: seq<Dim>, total: nat, stride: nat) {
    dims != [] && Inhabited(dims) && Product(dims) == total && total * stride < U32_LIMIT && total < U32_LIMIT
  }

  /** The members of a STRUCT are in it, and the elements of an array are in their strides. */
  ghost predicate IsLaidOut(types: seq<TypeDesc>, id: TypeId)
    requires id < |types|
  {
    match types[id]
    case Struct(size, fields) =>
      size < U32_LIMIT
      && forall i :: 0 <= i < |fields| ==>
           fields[i].ty < |types| && fields[i].offset + types[fields[i].ty].Size() <= size
    case Array(dims, total, stride, elem) =>
      IsShape(dims, total, stride) && elem < |types| && types[elem].Size() <= stride
    case _ => true
  }

  ghost predicate AreLaidOut(types: seq<TypeDesc>) {
    forall id {:trigger IsLaidOut(types, id)} :: 0 <= id < |types| ==> IsLaidOut(types, id)
  }

  /** The elements of an array variable are in their strides, and what it says of them is what their entry
      says. */
  ghost predicate DescribesElement(types: seq<TypeDesc>, arr: ArraySym) {
    match arr.elemType
    case None => arr.elemTy.Some? ==> arr.elemTy.value.SizeBytes() <= arr.elemSize
    case Some(id) =>
      && id < |types| && types[id].Size() <= arr.elemSize
      && match types[id]
         case Scalar(t) => arr.elemTy == Some(t)
         case Enum(storage) => arr.elemTy == Some(storage)
         case _ => arr.elemTy == None
  }

  /** An array variable is in memory, and describes its elements. */
  ghost predicate IsArray(types: seq<TypeDesc>, arr: ArraySym) {
    && IsShape(arr.dimensions, arr.totalElements, arr.elemSize)
    && arr.address + arr.totalElements * arr.elemSize < U32_LIMIT
    && DescribesElement(types, arr)
  }
}
