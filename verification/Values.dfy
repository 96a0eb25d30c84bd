/** How the bytes of a variable decode, and how a value is written over them. */
module Values {
  import opened Bytes
  import opened DebugTables
  import opened Words
  import opened Wrappers

  /** What a slot holds: integers and floats of `size` bytes, or text. */
  datatype Kind = OfBool | OfInt(size: nat) | OfUInt(size: nat) | OfFloat(size: nat) | OfText(capacity: nat)

  function KindOf(ty: SymType): Kind {
    match ty
    case Bool => OfBool
    case SInt => OfInt(1)
    case Int => OfInt(2)
    case DInt | Time | Date | Tod => OfInt(4)
    case LInt | LTime | LDate | LTod | DateAndTime | LDateTime => OfInt(8)
    case USInt | Byte => OfUInt(1)
    case UInt | Word => OfUInt(2)
    case Char | UDInt | DWord => OfUInt(4)
    case ULInt | LWord => OfUInt(8)
    case Real => OfFloat(4)
    case LReal => OfFloat(8)
    case String(capacity) => OfText(capacity)
  }

  /** A value. `Int` and `UInt` are of `size` bytes, a `Float` is its bit pattern, and a `Text` its UTF-8. */
  datatype VarValue =
    | Bool(b: bool)
    | Int(size: nat, i: int)
    | UInt(size: nat, n: nat)
    | Float(size: nat, pattern: nat)
    | Text(utf8: seq<byte>)
    | Unavailable

  /** How many numbers `size` bytes spell. */
  function Range(size: nat): (r: nat)
    ensures r >= 256
  {
    if size == 1 then 0x100 else if size == 2 then 0x1_0000 else if size == 4 then U32_LIMIT else U64_LIMIT
  }

  predicate IsSize(size: nat) {
    size == 1 || size == 2 || size == 4 || size == 8
  }

  /** The two's complement of `i` in `size` bytes. */
  function AsUnsigned(i: int, size: nat): nat
    requires i + Range(size) >= 0
  {
    if i < 0 then i + Range(size) else i
  }

  function AsSigned(n: nat, size: nat): int {
    if 2 * n >= Range(size) then n - Range(size) else n
  }

  /** Whether a value is one of its own type's. */
  predicate IsValue(v: VarValue) {
    match v
    case Bool(_) => true
    case Int(size, i) => IsSize(size) && 0 <= 2 * i + Range(size) < 2 * Range(size)
    case UInt(size, n) => IsSize(size) && n < Range(size)
    case Float(size, pattern) => IsSize(size) && pattern < Range(size)
    case Text(_) => true
    case Unavailable => true
  }

  predicate IsNumber(v: VarValue) {
    IsValue(v) && (v.Int? || v.UInt? || v.Float?)
  }

  /** The number a value's own bytes spell. */
  function Raw(v: VarValue): nat
    requires IsValue(v)
  {
    match v
    case Bool(b) => if b then 1 else 0
    case Int(size, i) => AsUnsigned(i, size)
    case UInt(_, n) => n
    case Float(_, pattern) => pattern
    case Text(_) => 0
    case Unavailable => 0
  }

  function Slot(size: nat): nat {
    if size == 8 then 8 else 4
  }

  /** The bytes of a slot that say its value, or the length of its text: a cast to a narrower integer
      keeps the lowest ones. */
  function Low(kind: Kind): nat {
    match kind
    case OfInt(size) => size
    case OfUInt(size) => size
    case OfFloat(size) => size
    case OfBool => 4
    case OfText(_) => 4
  }

  /** The value of a slot whose low bytes spell `n`, and the bytes after a text's length. */
  function Interpret(kind: Kind, n: nat, rest: seq<byte>, lossy: seq<byte> -> seq<byte>): VarValue {
    match kind
    case OfBool => VarValue.Bool(n != 0)
    case OfInt(size) => VarValue.Int(size, AsSigned(n, size))
    case OfUInt(size) => VarValue.UInt(size, n)
    case OfFloat(size) => VarValue.Float(size, n)
    case OfText(capacity) =>
      var len := AsSigned(n, 4);
      var clamped: nat := if len < 0 then 0 else len;
      Text(lossy(rest[..Least(Least(clamped, capacity), |rest|)]))
  }

  function Least(a: nat, b: nat): (n: nat)
    ensures n <= a && n <= b && (n == a || n == b)
  {
    if a < b then a else b
  }

  /** Decode the bytes of a variable. `None` is a read past them, where the program panics. */
  function Decode(ty: SymType, code: seq<byte>, lossy: seq<byte> -> seq<byte>): Option<VarValue> {
    var low := Low(KindOf(ty));
    if |code| < ty.SizeBytes() then Some(Unavailable)
    else if |code| < Slot(low) then None
    else
      assert low <= Slot(low);
      Some(Interpret(KindOf(ty), LittleEndian(code[..low]), code[Slot(low)..], lossy))
  }

  function ToLe(n: nat, count: nat): (code: seq<byte>)
    ensures |code| == count
  {
    if count == 0 then [] else [n % 256] + ToLe(n / 256, count - 1)
  }

  /** The bytes to write for a value; `None` for one of another type. */
  function Encode(ty: SymType, v: VarValue): Option<seq<byte>>
    requires IsValue(v)
  {
    var kind := KindOf(ty);
    match v
    case Bool(b) => if kind == OfBool then Some(ToLe(if b then 1 else 0, 4)) else None
    case Int(size, i) => if kind == OfInt(size) then Some(ToLe(AsUnsigned(i, Slot(size)), Slot(size))) else None
    case UInt(size, n) =>
      if kind == OfUInt(size) || (ty.Char? && size == 1) then Some(ToLe(n, Slot(size))) else None
    case Float(size, pattern) => if kind == OfFloat(size) then Some(ToLe(pattern, size)) else None
    case Text(utf8) => if kind.OfText? then Some(EncodeText(utf8, kind.capacity)) else None
    case Unavailable => None
  }

  /** A whole slot of text: its length as an `i32`, the bytes that fit, and zeros. */
  function EncodeText(utf8: seq<byte>, capacity: nat): (code: seq<byte>)
    ensures |code| == 4 + capacity
  {
    var n := Least(|utf8|, capacity);
    ToLe(n % U32_LIMIT, 4) + utf8[..n] + seq(capacity - n, _ => 0)
  }

  // ----- Reading past the bytes

  /** Decoding reads past the bytes for a DATE_AND_TIME of four to seven of them, whose slot counts as
      four bytes and is read as eight, and for a text whose slot is past 32 bits; for nothing else. */
  lemma DecodeReadsPast(ty: SymType, code: seq<byte>, lossy: seq<byte> -> seq<byte>)
    ensures Decode(ty, code, lossy) == None
       <==> || (ty.DateAndTime? && 4 <= |code| < 8)
            || (ty.String? && (4 + ty.capacity) % U32_LIMIT <= |code| < 4)
  {
    if ty.String? && ty.capacity + 4 < U32_LIMIT {
      assert ty.SizeBytes() >= 4;
    }
  }

  // ----- What a type holds

  /** The values of a type, by the ranges of section 6.4.2 of IEC 61131-3. A CHAR is a code point of four bytes,
      and may be given as one byte. */
  ghost predicate Holds(ty: SymType, v: VarValue) {
    match ty
    case Bool => v.Bool?
    case SInt => v.Int? && v.size == 1 && -128 <= v.i <= 127
    case Int => v.Int? && v.size == 2 && -32768 <= v.i <= 32767
    case DInt | Time | Date | Tod => v.Int? && v.size == 4 && -0x8000_0000 <= v.i <= 0x7fff_ffff
    case LInt | LTime | LDate | LTod | DateAndTime | LDateTime =>
      v.Int? && v.size == 8 && -0x8000_0000_0000_0000 <= v.i <= 0x7fff_ffff_ffff_ffff
    case USInt | Byte => v.UInt? && v.size == 1 && v.n <= 255
    case UInt | Word => v.UInt? && v.size == 2 && v.n <= 65535
    case UDInt | DWord => v.UInt? && v.size == 4 && v.n <= 0xffff_ffff
    case Char => v.UInt? && ((v.size == 4 && v.n <= 0xffff_ffff) || (v.size == 1 && v.n <= 255))
    case ULInt | LWord => v.UInt? && v.size == 8 && v.n <= 0xffff_ffff_ffff_ffff
    case Real => v.Float? && v.size == 4 && v.pattern <= 0xffff_ffff
    case LReal => v.Float? && v.size == 8 && v.pattern <= 0xffff_ffff_ffff_ffff
    case String(_) => v.Text?
  }

  /** A value is written as a type if and only if the type holds it. */
  lemma EncodesWhatItHolds(ty: SymType, v: VarValue)
    requires IsValue(v)
    ensures Encode(ty, v).Some? <==> Holds(ty, v)
  {
  }

  /** How many bytes a variable must have to be read. */
  ghost function Needed(ty: SymType): nat {
    match ty
    case LInt | ULInt | LWord | LReal | LTime | LDate | LTod | LDateTime => 8
    case String(capacity) => (4 + capacity) % 0x1_0000_0000
    case _ => 4
  }

  /** Whether the first bytes of some code spell a number of `size` bytes, the lowest first. */
  ghost predicate Spells(code: seq<byte>, size: nat, n: int) {
    && size <= |code|
    && ((size == 1 && n == At(code, 0))
        || (size == 2 && n == At(code, 0) + 0x100 * At(code, 1))
        || (size == 4 && n == LowFour(code, 0))
        || (size == 8 && n == LowFour(code, 0) + 0x1_0000_0000 * LowFour(code, 4)))
  }

  ghost function At(code: seq<byte>, i: nat): nat
    requires i < |code|
  {
    code[i]
  }

  ghost function LowFour(code: seq<byte>, i: nat): nat
    requires i + 4 <= |code|
  {
    At(code, i) + 0x100 * At(code, i + 1) + 0x1_0000 * At(code, i + 2) + 0x100_0000 * At(code, i + 3)
  }

  /** Whether a value is what the bytes of a variable say: a number in two's complement, a pattern, or as much of a
      text as its length, its capacity and its bytes have. */
  ghost predicate IsSaid(ty: SymType, code: seq<byte>, lossy: seq<byte> -> seq<byte>, v: VarValue) {
    match v
    case Bool(b) => |code| >= 4 && (b <==> LowFour(code, 0) != 0)
    case Int(size, i) => Spells(code, size, i) || Spells(code, size, i + Range(size))
    case UInt(size, n) => Spells(code, size, n) && (ty.Char? ==> size == 4)
    case Float(size, pattern) => Spells(code, size, pattern)
    case Text(utf8) =>
      ty.String? && |code| >= 4 && exists n: nat :: IsKept(code, ty.capacity, n) && utf8 == lossy(KeptOf(code, n))
    case Unavailable => false
  }

  /** Whether `n` bytes of a text are read: the least of its length, which is none when it is negative, its capacity
      and what is there. */
  ghost predicate IsKept(code: seq<byte>, capacity: nat, n: nat)
    requires |code| >= 4
  {
    var length := LowFour(code, 0);
    && n <= |code| - 4 && n <= capacity
    && (if length >= 0x8000_0000 then n == 0
        else n <= length && (n == length || n == capacity || n == |code| - 4))
  }

  ghost function KeptOf(code: seq<byte>, n: nat): seq<byte> {
    if 4 + n <= |code| then code[4..4 + n] else []
  }

  /** What is read of a variable is what its bytes say, a value that its type holds. It is unavailable exactly
      when the bytes are too few. */
  lemma DecodeIsExact(ty: SymType, code: seq<byte>, lossy: seq<byte> -> seq<byte>)
    ensures match Decode(ty, code, lossy)
            case None => true
            case Some(Unavailable) => |code| < Needed(ty)
            case Some(v) => |code| >= Needed(ty) && Holds(ty, v) && IsSaid(ty, code, lossy, v)
  {
    var low := Low(KindOf(ty));
    if |code| >= ty.SizeBytes() && |code| >= Slot(low) {
      LowIsSpelled(code, low);
      if ty.String? {
        var v := TextIsExact(ty, code, lossy);
      } else {
        NumberIsExact(ty, code, lossy);
      }
    }
  }

  lemma TextIsExact(ty: SymType, code: seq<byte>, lossy: seq<byte> -> seq<byte>) returns (v: VarValue)
    requires ty.String? && |code| >= 4 && Spells(code, 4, LittleEndian(code[..4]))
    ensures v == Interpret(KindOf(ty), LittleEndian(code[..4]), code[4..], lossy)
    ensures v.Text? && IsSaid(ty, code, lossy, v)
  {
    var length := LittleEndian(code[..4]);
    v := Interpret(KindOf(ty), length, code[4..], lossy);
    var clamped: nat := if AsSigned(length, 4) < 0 then 0 else AsSigned(length, 4);
    var n := Least(Least(clamped, ty.capacity), |code| - 4);
    assert code[4..][..n] == code[4..4 + n];
    assert IsKept(code, ty.capacity, n);
  }

  lemma NumberIsExact(ty: SymType, code: seq<byte>, lossy: seq<byte> -> seq<byte>)
    requires !ty.String?
    requires var low := Low(KindOf(ty));
             && |code| >= Slot(low)
             && Spells(code, low, LittleEndian(code[..low])) && LittleEndian(code[..low]) < Range(low)
    ensures var low := Low(KindOf(ty));
            var v := Interpret(KindOf(ty), LittleEndian(code[..low]), code[Slot(low)..], lossy);
            !v.Unavailable? && Holds(ty, v) && IsSaid(ty, code, lossy, v)
  {
  }

  lemma LowIsSpelled(code: seq<byte>, low: nat)
    requires IsSize(low) && low <= |code|
    ensures Spells(code, low, LittleEndian(code[..low]))
    ensures LittleEndian(code[..low]) < Range(low)
  {
    LittleEndianBelow(code[..low]);
    RangeIsPow2(low);
    LowBytesSpell(code, low);
  }

  lemma ByteIs(b: byte)
    ensures LittleEndian([b]) == b
  {
    var none: seq<byte> := [];
    assert [b][1..] == none && LittleEndian(none) == 0;
  }

  lemma LowBytesSpell(code: seq<byte>, low: nat)
    requires IsSize(low) && low <= |code|
    ensures Spells(code, low, LittleEndian(code[..low]))
  {
    if low == 8 {
      FourBytes(code, 0);
      FourBytes(code, 4);
      LittleEndianOfBoth(code[0..4], code[4..8]);
      assert code[0..4] + code[4..8] == code[..8];
    } else if low == 4 {
      FourBytes(code, 0);
      assert code[0..4] == code[..4];
    } else if low == 2 {
      ByteIs(code[1]);
      assert code[..2][1..] == [code[1]];
    } else {
      ByteIs(code[0]);
      assert code[..1] == [code[0]];
    }
  }

  lemma FourBytes(code: seq<byte>, i: nat)
    requires i + 4 <= |code|
    ensures LittleEndian(code[i..i + 4]) == LowFour(code, i)
  {
    var first, second, third, last := code[i..i + 4], code[i + 1..i + 4], code[i + 2..i + 4], code[i + 3..i + 4];
    var none: seq<byte> := [];
    assert first[1..] == second && second[1..] == third && third[1..] == last && last[1..] == none;
    assert LittleEndian(none) == 0;
    assert LittleEndian(last) == last[0] + 256 * LittleEndian(none);
    assert LittleEndian(third) == third[0] + 256 * LittleEndian(last);
    assert LittleEndian(second) == second[0] + 256 * LittleEndian(third);
  }

  lemma LittleEndianOfBoth(a: seq<byte>, b: seq<byte>)
    requires |a| == 4
    ensures LittleEndian(a + b) == LittleEndian(a) + 0x1_0000_0000 * LittleEndian(b)
  {
    var all := a + b;
    var second, third, last := all[1..], all[2..], all[3..];
    assert second[1..] == third && third[1..] == last && last[1..] == b;
    assert LittleEndian(last) == last[0] + 256 * LittleEndian(b);
    assert LittleEndian(third) == third[0] + 256 * LittleEndian(last);
    assert LittleEndian(second) == second[0] + 256 * LittleEndian(third);
    FourBytes(a, 0);
    assert a[0..4] == a;
  }

  // ----- Numbers and their bytes

  lemma {:induction false} ToLeSpells(n: nat, count: nat)
    requires n < Pow2(8 * count)
    ensures LittleEndian(ToLe(n, count)) == n
  {
    if count > 0 {
      Pow2By8(8 * (count - 1));
      ToLeSpells(n / 256, count - 1);
      assert ToLe(n, count)[1..] == ToLe(n / 256, count - 1);
    }
  }

  lemma Pow2By8(n: nat)
    ensures Pow2(n + 8) == 256 * Pow2(n)
  {
    Pow2Seven(n);
  }

  lemma RangeIsPow2(size: nat)
    requires IsSize(size)
    ensures Pow2(8 * size) == Range(size)
  {
    Pow2At8(8);
    Pow2By8(8);
    Pow2By8(16);
    Pow2By8(24);
    if size == 8 {
      Pow2At64(64);
    }
  }

  lemma {:induction false} LowOfToLe(n: nat, count: nat, k: nat)
    requires k <= count
    ensures ToLe(n, count)[..k] == ToLe(n, k)
  {
    if k > 0 {
      LowOfToLe(n / 256, count - 1, k - 1);
      assert ToLe(n, count)[1..] == ToLe(n / 256, count - 1);
    }
  }

  lemma {:induction false} ToLeOfLow(n: nat, more: nat, k: nat)
    ensures ToLe(n + more * Pow2(8 * k), k) == ToLe(n, k)
  {
    if k > 0 {
      var p := Pow2(8 * (k - 1));
      Pow2By8(8 * (k - 1));
      ByteUp(more, p);
      ToLeOfByte(n, more * p, k);
      ToLeOfLow(n / 256, more, k - 1);
    }
  }

  lemma ToLeOfByte(n: nat, x: nat, k: nat)
    requires k > 0
    ensures ToLe(n + 256 * x, k) == [n % 256] + ToLe(n / 256 + x, k - 1)
  {
    LowByte(n, x);
  }

  lemma LowByte(n: nat, x: nat)
    ensures (n + 256 * x) % 256 == n % 256 && (n + 256 * x) / 256 == n / 256 + x
  {
  }

  /** What is written for a number: a signed one is widened with its sign. */
  function Written(v: VarValue): nat
    requires IsNumber(v)
  {
    if v.Int? then AsUnsigned(v.i, Slot(v.size)) else Raw(v)
  }

  lemma WrittenIsRaw(v: VarValue) returns (more: nat)
    requires IsNumber(v)
    ensures Written(v) == Raw(v) + more * Range(v.size) && Raw(v) < Range(v.size)
  {
    more := if Written(v) == Raw(v) then 0 else if v.size == 1 then 0xFF_FFFF else 0xFFFF;
  }

  lemma LowSpells(raw: nat, more: nat, size: nat)
    requires IsSize(size) && raw < Range(size)
    ensures LittleEndian(ToLe(raw + more * Range(size), Slot(size))[..size]) == raw
  {
    RangeIsPow2(size);
    LowOfToLe(raw + more * Range(size), Slot(size), size);
    ToLeOfLow(raw, more, size);
    ToLeSpells(raw, size);
  }

  /** A value's own bytes are at the low end of what is written for it. */
  lemma EncodedNumber(ty: SymType, v: VarValue)
    requires IsNumber(v) && Encode(ty, v).Some?
    ensures var code := Encode(ty, v).value;
            |code| == Slot(v.size) && LittleEndian(code[..v.size]) == Raw(v)
  {
    var more := WrittenIsRaw(v);
    LowSpells(Raw(v), more, v.size);
  }

  /** Whether some bytes are those of a number or a truth value: a slot that spells it, with its sign. */
  ghost predicate IsWritten(v: VarValue, code: seq<byte>) {
    match v
    case Bool(b) => |code| == 4 && LowFour(code, 0) == if b then 1 else 0
    case Int(size, i) =>
      && |code| == (if size == 8 then 8 else 4)
      && (Spells(code, |code|, i) || (i < 0 && Spells(code, |code|, i + Range(|code|))))
    case UInt(size, n) => |code| == (if size == 8 then 8 else 4) && Spells(code, |code|, n)
    case Float(size, pattern) => |code| == size && Spells(code, |code|, pattern)
    case _ => false
  }

  lemma SlotSpells(n: nat, count: nat)
    requires (count == 4 || count == 8) && n < Range(count)
    ensures Spells(ToLe(n, count), count, n)
  {
    var code := ToLe(n, count);
    RangeIsPow2(count);
    ToLeSpells(n, count);
    LowBytesSpell(code, count);
    assert code[..count] == code;
  }

  /** What is written for a value other than a text is a whole slot of it. */
  lemma EncodeIsExact(ty: SymType, v: VarValue)
    requires IsValue(v) && !v.Text? && Encode(ty, v).Some?
    ensures IsWritten(v, Encode(ty, v).value)
  {
    match v
    case Bool(b) => SlotSpells(if b then 1 else 0, 4);
    case Int(size, i) => SlotSpells(AsUnsigned(i, Slot(size)), Slot(size));
    case UInt(size, n) => SlotSpells(n, Slot(size));
    case Float(size, pattern) => SlotSpells(pattern, size);
  }

  // ----- Round trips

  /** What a text reads back as: as much of it as its slot holds, while an `i32` counts it. */
  function Kept(utf8: seq<byte>, capacity: nat): seq<byte> {
    var n := Least(|utf8|, capacity);
    if n < 0x8000_0000 then utf8[..n] else []
  }

  /** A value other than a text decodes to itself, but for a CHAR given as one byte, which decodes as the
      same code point of four. */
  lemma DecodeUndoesEncode(ty: SymType, v: VarValue, lossy: seq<byte> -> seq<byte>)
    requires IsValue(v) && !v.Text? && Encode(ty, v).Some?
    ensures Decode(ty, Encode(ty, v).value, lossy)
         == Some(if ty.Char? then VarValue.UInt(4, v.n) else v)
  {
    var code := Encode(ty, v).value;
    assert code[..|code|] == code;
    if v.Bool? || ty.Char? {
      SpelledInFour(Raw(v));
    } else {
      EncodedNumber(ty, v);
      NumberIsRead(ty, v, code, lossy);
    }
  }

  /** A text decodes to what its slot kept of it. */
  lemma DecodeUndoesEncodeText(ty: SymType, utf8: seq<byte>, lossy: seq<byte> -> seq<byte>)
    requires ty.String? && ty.capacity < U32_LIMIT
    ensures Encode(ty, Text(utf8)).Some?
    ensures Decode(ty, Encode(ty, Text(utf8)).value, lossy) == Some(Text(lossy(Kept(utf8, ty.capacity))))
  {
    EncodedText(utf8, ty.capacity);
    KeptIsRead(Least(|utf8|, ty.capacity), EncodeText(utf8, ty.capacity)[4..], utf8, ty.capacity, lossy);
  }

  lemma EncodedText(utf8: seq<byte>, capacity: nat)
    requires capacity < U32_LIMIT
    ensures var n, code := Least(|utf8|, capacity), EncodeText(utf8, capacity);
            LittleEndian(code[..4]) == n && code[4..4 + n] == utf8[..n]
  {
    var n, code := Least(|utf8|, capacity), EncodeText(utf8, capacity);
    SpelledInFour(n);
    Parts(ToLe(n, 4), utf8[..n], seq(capacity - n, _ => 0));
  }

  lemma Parts<T>(a: seq<T>, b: seq<T>, c: seq<T>)
    ensures (a + b + c)[..|a|] == a && (a + b + c)[|a|..|a| + |b|] == b
  {
  }

  lemma SpelledInFour(n: nat)
    requires n < U32_LIMIT
    ensures LittleEndian(ToLe(n, 4)) == n
  {
    RangeIsPow2(4);
    ToLeSpells(n, 4);
  }

  lemma KeptIsRead(n: nat, rest: seq<byte>, utf8: seq<byte>, capacity: nat, lossy: seq<byte> -> seq<byte>)
    requires n == Least(|utf8|, capacity) && capacity < U32_LIMIT && |rest| == capacity && rest[..n] == utf8[..n]
    ensures Interpret(OfText(capacity), n, rest, lossy) == Text(lossy(Kept(utf8, capacity)))
  {
    assert rest[..0] == [];
  }

  // ----- Parts of a cell

  /** The low bits of a written number, read back through a part. */
  lemma PartReadsLowBits(code: seq<byte>, width: nat, k: nat)
    requires k <= |code| && k <= 8
    ensures var read := ToBytes(And(Widen(code), Mask(width)));
            && (LittleEndian(read[..k]) == LittleEndian(code[..k]) <==> LittleEndian(code[..k]) < Pow2(width))
            && (width == 0 ==> LittleEndian(read[..k]) == 0)
  {
    var whole := Widen(code);
    var low := And(whole, Mask(width));
    CodeSpellsBits(code, k);
    BytesSpellBits(low, 0, k);
    assert ToBytes(low)[0..k] == ToBytes(low)[..k];
    assert low[0..8 * k] == low[..8 * k];
    MaskedNumber(whole[..8 * k], low[..8 * k], width);
  }

  lemma MaskedNumber(a: seq<bool>, b: seq<bool>, width: nat)
    requires |a| == |b| && forall i :: 0 <= i < |a| ==> b[i] == (a[i] && i < width)
    ensures Number(a) == Number(b) <==> Number(a) < Pow2(width)
    ensures width == 0 ==> Number(b) == 0
  {
    NumberIsShort(a, width);
    NumberIsShort(b, width);
    if Number(a) == Number(b) {
    }
    if Number(a) < Pow2(width) {
      assert a == b;
    }
  }

  lemma ByteUp(n: nat, weight: nat)
    ensures 256 * (n * weight) == n * (256 * weight)
  {
  }

  lemma {:induction false} LittleEndianBelow(code: seq<byte>)
    ensures LittleEndian(code) < Pow2(8 * |code|)
  {
    if code != [] {
      LittleEndianBelow(code[1..]);
      Pow2By8(8 * (|code| - 1));
    }
  }

  // ----- Locations

  /** The value at a location, from the bytes of its cell. */
  function DecodeAt(loc: VarLoc, cell: seq<byte>, lossy: seq<byte> -> seq<byte>): Option<VarValue> {
    match loc.bits
    case Some(bits) => Decode(loc.ty, Extract(bits, cell), lossy)
    case None => Decode(loc.ty, cell, lossy)
  }

  /** The bytes to write at a location, over those that are there. */
  function EncodeAt(loc: VarLoc, cell: seq<byte>, v: VarValue): Option<seq<byte>>
    requires IsValue(v)
  {
    var code :- Encode(loc.ty, v);
    match loc.bits
    case Some(bits) => Some(Replace(bits, cell, code))
    case None => Some(code)
  }

  /** What is written to a part reads back exactly when the part has a bit for each of the number the
      value's own bytes spell; a negative one, then, when it is as wide as they are. The rest of the cell
      is as it was. */
  lemma ReadAfterWrite(loc: VarLoc, cell: seq<byte>, v: VarValue, lossy: seq<byte> -> seq<byte>)
    requires loc.bits.Some? && FitsCell(loc.bits.value, |cell|)
    requires IsValue(v) && !v.Text? && Encode(loc.ty, v).Some? && !(loc.ty.Char? && v.size == 1)
    ensures EncodeAt(loc, cell, v).Some? && |EncodeAt(loc, cell, v).value| == |cell|
    ensures DecodeAt(loc, EncodeAt(loc, cell, v).value, lossy) == Some(v) <==> Raw(v) < Pow2(loc.bits.value.width)
    ensures forall i :: 0 <= i < 64 && !IsOfPart(loc.bits.value, i) ==>
              Widen(EncodeAt(loc, cell, v).value)[i] == Widen(cell)[i]
  {
    var bits := loc.bits.value;
    var code := Encode(loc.ty, v).value;
    ReplacedBits(bits, cell, code);
    ExtractAfterReplace(bits, cell, code);
    PartInterprets(loc.ty, v, bits.width, lossy);
  }

  lemma PartInterprets(ty: SymType, v: VarValue, width: nat, lossy: seq<byte> -> seq<byte>)
    requires IsValue(v) && !v.Text? && Encode(ty, v).Some? && !(ty.Char? && v.size == 1)
    ensures Decode(ty, ToBytes(And(Widen(Encode(ty, v).value), Mask(width))), lossy) == Some(v)
       <==> Raw(v) < Pow2(width)
  {
    if v.Bool? {
      PartOfBool(ty, v, width, lossy);
    } else {
      PartOfNumber(ty, v, width, lossy);
    }
  }

  lemma PartOfBool(ty: SymType, v: VarValue, width: nat, lossy: seq<byte> -> seq<byte>)
    requires v.Bool? && Encode(ty, v).Some?
    ensures Decode(ty, ToBytes(And(Widen(Encode(ty, v).value), Mask(width))), lossy) == Some(v)
       <==> Raw(v) < Pow2(width)
  {
    var code := ToLe(Raw(v), 4);
    assert code[..4] == code;
    SpelledInFour(Raw(v));
    PartReadsLowBits(code, width, 4);
    if width > 0 {
      assert Pow2(width) >= 2;
    }
  }

  lemma PartOfNumber(ty: SymType, v: VarValue, width: nat, lossy: seq<byte> -> seq<byte>)
    requires IsNumber(v) && Encode(ty, v).Some? && !(ty.Char? && v.size == 1)
    ensures Decode(ty, ToBytes(And(Widen(Encode(ty, v).value), Mask(width))), lossy) == Some(v)
       <==> Raw(v) < Pow2(width)
  {
    var code := Encode(ty, v).value;
    var read := ToBytes(And(Widen(code), Mask(width)));
    EncodedNumber(ty, v);
    PartReadsLowBits(code, width, v.size);
    LittleEndianBelow(read[..v.size]);
    RangeIsPow2(v.size);
    NumberIsRead(ty, v, read, lossy);
  }

  lemma NumberIsRead(ty: SymType, v: VarValue, read: seq<byte>, lossy: seq<byte> -> seq<byte>)
    requires IsNumber(v) && Encode(ty, v).Some? && !(ty.Char? && v.size == 1)
    requires |read| >= Slot(v.size) && LittleEndian(read[..v.size]) < Range(v.size)
    ensures Decode(ty, read, lossy) == Some(v) <==> LittleEndian(read[..v.size]) == Raw(v)
  {
    KindOfNumber(ty, v);
  }

  lemma KindOfNumber(ty: SymType, v: VarValue)
    requires IsNumber(v) && Encode(ty, v).Some? && !(ty.Char? && v.size == 1)
    ensures Low(KindOf(ty)) == v.size && ty.SizeBytes() <= Slot(v.size)
    ensures KindOf(ty) == if v.Int? then OfInt(v.size) else if v.UInt? then OfUInt(v.size) else OfFloat(v.size)
  {
  }

  /** A part as wide as its type holds every value of it, the negative ones too. */
  lemma WholePartHoldsAll(v: VarValue, width: nat)
    requires IsNumber(v) && width >= 8 * v.size
    ensures Raw(v) < Pow2(width)
  {
    RangeIsPow2(v.size);
    Pow2Monotone(8 * v.size, width);
  }

  /** A write to one part leaves what another one reads. */
  lemma WriteLeavesOthers(a: VarLoc, b: VarLoc, cell: seq<byte>, v: VarValue, lossy: seq<byte> -> seq<byte>)
    requires a.bits.Some? && b.bits.Some? && IsValue(v) && Encode(a.ty, v).Some?
    requires FitsCell(a.bits.value, |cell|) && FitsCell(b.bits.value, |cell|)
    requires var p, q := a.bits.value, b.bits.value; p.shift + p.width <= q.shift || q.shift + q.width <= p.shift
    ensures DecodeAt(b, EncodeAt(a, cell, v).value, lossy) == DecodeAt(b, cell, lossy)
  {
    WritesStayApart(a.bits.value, b.bits.value, cell, Encode(a.ty, v).value);
  }
}
