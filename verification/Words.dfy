/** 64-bit words as their bits, the lowest first, and the part of a word a `SymBits` says. */
module Words {
  import opened Bytes
  import opened DebugTables

  type Word = w: seq<bool> | |w| == 64 witness seq(64, _ => false)

  // ----- Bits and the numbers they spell

  /** Bits as the number they spell, the lowest first. */
  function Number(bits: seq<bool>): nat {
    if bits == [] then 0 else (if bits[0] then 1 else 0) + 2 * Number(bits[1..])
  }

  /** The `count` lowest bits of a number. */
  function Binary(n: nat, count: nat): (bits: seq<bool>)
    ensures |bits| == count
  {
    if count == 0 then [] else [n % 2 == 1] + Binary(n / 2, count - 1)
  }

  lemma {:induction false} NumberBelow(bits: seq<bool>)
    ensures Number(bits) < Pow2(|bits|)
  {
    if bits != [] {
      NumberBelow(bits[1..]);
    }
  }

  lemma {:induction false} BinaryOfNumber(bits: seq<bool>)
    ensures Binary(Number(bits), |bits|) == bits
  {
    if bits != [] {
      BinaryOfNumber(bits[1..]);
      assert Number(bits) / 2 == Number(bits[1..]);
    }
  }

  lemma {:induction false} NumberOfBinary(n: nat, count: nat)
    requires n < Pow2(count)
    ensures Number(Binary(n, count)) == n
  {
    if count > 0 {
      NumberOfBinary(n / 2, count - 1);
      assert Binary(n, count)[1..] == Binary(n / 2, count - 1);
    }
  }

  lemma {:induction false} NumberOfJoined(low: seq<bool>, high: seq<bool>)
    ensures Number(low + high) == Number(low) + Number(high) * Pow2(|low|)
  {
    if low == [] {
      assert low + high == high;
    } else {
      NumberOfJoined(low[1..], high);
      assert (low + high)[1..] == low[1..] + high;
      Doubled(Number(high), Pow2(|low| - 1));
    }
  }

  lemma Doubled(n: nat, weight: nat)
    ensures 2 * (n * weight) == n * (2 * weight)
  {
  }

  /** A number is below a power of two when it has no bit from there on, and only then. */
  lemma {:induction false} NumberIsShort(bits: seq<bool>, width: nat)
    ensures Number(bits) < Pow2(width) <==> forall i :: width <= i < |bits| ==> !bits[i]
  {
    if bits == [] {
    } else if width == 0 {
      NumberIsShort(bits[1..], 0);
      assert forall i :: 0 <= i < |bits| ==> bits[i] == if i == 0 then bits[0] else bits[1..][i - 1];
      if Number(bits) < 1 {
        assert forall i :: 0 <= i < |bits[1..]| ==> !bits[1..][i];
      } else if !bits[0] {
        assert Number(bits[1..]) >= 1;
        var i :| 0 <= i < |bits[1..]| && bits[1..][i];
        assert bits[i + 1];
      }
    } else {
      NumberIsShort(bits[1..], width - 1);
      if Number(bits) < Pow2(width) {
        forall i | width <= i < |bits|
          ensures !bits[i]
        {
          assert bits[i] == bits[1..][i - 1];
        }
      } else {
        assert Number(bits[1..]) >= Pow2(width - 1);
        var i :| width - 1 <= i < |bits[1..]| && bits[1..][i];
        assert bits[i + 1];
      }
    }
  }

  // ----- Bytes

  function BitsOf(b: byte): (bits: seq<bool>)
    ensures |bits| == 8
  {
    Binary(b, 8)
  }

  lemma Pow2At8(n: nat)
    requires n == 8
    ensures Pow2(n) == 256
  {
    Pow2Seven(n - 7);
  }

  function ByteOf(bits: seq<bool>): (b: byte)
    requires |bits| == 8
    ensures b == Number(bits)
  {
    NumberBelow(bits);
    Pow2At8(|bits|);
    Number(bits)
  }

  lemma ByteRoundTrip(b: byte)
    ensures ByteOf(BitsOf(b)) == b
  {
    Pow2At8(8);
    NumberOfBinary(b, 8);
  }

  lemma BitsRoundTrip(bits: seq<bool>)
    requires |bits| == 8
    ensures BitsOf(ByteOf(bits)) == bits
  {
    BinaryOfNumber(bits);
  }

  /** Up to eight bytes as one word, the lowest first. */
  function Widen(code: seq<byte>): (w: Word)
    ensures forall i :: 0 <= i < 64 ==> w[i] == (i / 8 < |code| && BitsOf(code[i / 8])[i % 8])
  {
    seq(64, i requires 0 <= i < 64 => i / 8 < |code| && BitsOf(code[i / 8])[i % 8])
  }

  function ToBytes(w: Word): (code: seq<byte>)
    ensures |code| == 8
  {
    seq(8, k requires 0 <= k < 8 => ByteOf(w[8 * k..8 * k + 8]))
  }

  /** The bytes of a word have its bits, as many of them as there are. */
  lemma WidenBytes(w: Word, n: nat)
    requires n <= 8
    ensures forall i :: 0 <= i < 64 ==> Widen(ToBytes(w)[..n])[i] == (i < 8 * n && w[i])
  {
    forall i | 0 <= i < 64
      ensures Widen(ToBytes(w)[..n])[i] == (i < 8 * n && w[i])
    {
      var k := i / 8;
      if k < n {
        BitsRoundTrip(w[8 * k..8 * k + 8]);
        assert ToBytes(w)[..n][k] == ByteOf(w[8 * k..8 * k + 8]);
        assert w[8 * k..8 * k + 8][i % 8] == w[i];
      }
    }
  }

  /** Bytes are those of the word they make, as far as they go. */
  lemma BytesOfWiden(code: seq<byte>, k: nat)
    requires k < |code| && k < 8
    ensures ToBytes(Widen(code))[k] == code[k]
  {
    ByteOfWiden(code, k);
    ByteRoundTrip(code[k]);
  }

  lemma ByteOfWiden(code: seq<byte>, k: nat)
    requires k < |code| && k < 8
    ensures Widen(code)[8 * k..8 * k + 8] == BitsOf(code[k])
  {
    forall j | 0 <= j < 8
      ensures Widen(code)[8 * k..8 * k + 8][j] == BitsOf(code[k])[j]
    {
      assert (8 * k + j) / 8 == k && (8 * k + j) % 8 == j;
    }
  }

  /** The lowest bytes of a word spell what its lowest bits do. */
  lemma {:induction false} BytesSpellBits(w: Word, j: nat, k: nat)
    requires j <= k <= 8
    ensures LittleEndian(ToBytes(w)[j..k]) == Number(w[8 * j..8 * k])
    decreases k - j
  {
    if j < k {
      BytesSpellBits(w, j + 1, k);
      var low, high := w[8 * j..8 * j + 8], w[8 * (j + 1)..8 * k];
      assert w[8 * j..8 * k] == low + high;
      NumberOfJoined(low, high);
      Pow2At8(|low|);
      assert ToBytes(w)[j..k][1..] == ToBytes(w)[j + 1..k];
    }
  }

  lemma CodeSpellsBits(code: seq<byte>, k: nat)
    requires k <= |code| && k <= 8
    ensures LittleEndian(code[..k]) == Number(Widen(code)[..8 * k])
  {
    forall j | 0 <= j < k
      ensures ToBytes(Widen(code))[j] == code[j]
    {
      BytesOfWiden(code, j);
    }
    assert ToBytes(Widen(code))[0..k] == code[..k];
    BytesSpellBits(Widen(code), 0, k);
    assert Widen(code)[0..8 * k] == Widen(code)[..8 * k];
  }

  // ----- The operators of a processor, bit by bit

  function And(a: Word, b: Word): (w: Word)
    ensures forall i :: 0 <= i < 64 ==> w[i] == (a[i] && b[i])
  {
    seq(64, i requires 0 <= i < 64 => a[i] && b[i])
  }

  function Or(a: Word, b: Word): (w: Word)
    ensures forall i :: 0 <= i < 64 ==> w[i] == (a[i] || b[i])
  {
    seq(64, i requires 0 <= i < 64 => a[i] || b[i])
  }

  function Not(a: Word): (w: Word)
    ensures forall i :: 0 <= i < 64 ==> w[i] == !a[i]
  {
    seq(64, i requires 0 <= i < 64 => !a[i])
  }

  function ShiftLeft(a: Word, shift: nat): (w: Word)
    ensures forall i :: 0 <= i < 64 ==> w[i] == (i >= shift && a[i - shift])
  {
    seq(64, i requires 0 <= i < 64 => i >= shift && a[i - shift])
  }

  function ShiftRight(a: Word, shift: nat): (w: Word)
    ensures forall i :: 0 <= i < 64 ==> w[i] == (i + shift < 64 && a[i + shift])
  {
    seq(64, i requires 0 <= i < 64 => i + shift < 64 && a[i + shift])
  }

  // ----- Parts

  /** `width` ones, from the lowest bit. */
  function Mask(width: nat): (w: Word)
    ensures forall i :: 0 <= i < 64 ==> w[i] == (i < width)
  {
    seq(64, i requires 0 <= i < 64 => i < width)
  }

  /** The part, taken out of the bytes of the whole. A shift past the value is a part of nothing. */
  function Extract(bits: SymBits, whole: seq<byte>): (code: seq<byte>)
    ensures |code| == 8
  {
    if bits.shift >= 64 then seq(8, k => 0)
    else ToBytes(And(ShiftRight(Widen(whole), bits.shift), Mask(bits.width)))
  }

  /** The bytes of the whole, no more than eight of them, with the bits of the part replaced. */
  function Replace(bits: SymBits, whole: seq<byte>, part: seq<byte>): seq<byte> {
    var n := if |whole| < 8 then |whole| else 8;
    if bits.shift >= 64 then whole[..n] else ToBytes(Merged(bits, Widen(whole), Widen(part)))[..n]
  }

  function Merged(bits: SymBits, whole: Word, part: Word): Word {
    var mask := ShiftLeft(Mask(bits.width), bits.shift);
    Or(And(whole, Not(mask)), And(ShiftLeft(part, bits.shift), mask))
  }

  /** Whether the part is in a cell of `size` bytes. */
  predicate FitsCell(bits: SymBits, size: nat) {
    size <= 8 && bits.shift < 64 && bits.shift + bits.width <= 8 * size
  }

  predicate IsOfPart(bits: SymBits, i: nat) {
    bits.shift <= i < bits.shift + bits.width
  }

  /** The bits of a cell after a part of it is written. */
  lemma ReplacedBits(bits: SymBits, whole: seq<byte>, part: seq<byte>)
    requires FitsCell(bits, |whole|)
    ensures |Replace(bits, whole, part)| == |whole|
    ensures forall i :: 0 <= i < 64 ==>
              Widen(Replace(bits, whole, part))[i]
              == if IsOfPart(bits, i) then Widen(part)[i - bits.shift] else Widen(whole)[i]
  {
    var merged := Merged(bits, Widen(whole), Widen(part));
    WidenBytes(merged, |whole|);
    forall i | 0 <= i < 64
      ensures Widen(Replace(bits, whole, part))[i]
              == if IsOfPart(bits, i) then Widen(part)[i - bits.shift] else Widen(whole)[i]
    {
      assert i >= 8 * |whole| ==> !Widen(whole)[i];
    }
  }

  lemma ZeroHasNoBits(code: seq<byte>)
    requires forall k :: 0 <= k < |code| ==> code[k] == 0
    ensures forall i :: 0 <= i < 64 ==> !Widen(code)[i]
  {
    forall i | 0 <= i < 64 && i / 8 < |code|
      ensures !BitsOf(code[i / 8])[i % 8]
    {
      NumberIsShort(BitsOf(0), 0);
      ByteRoundTrip(0);
    }
  }

  /** What is read of any part of any cell: its bits, and zeros above them and past the 64 there are. */
  lemma ExtractIsExact(bits: SymBits, whole: seq<byte>)
    ensures forall i :: 0 <= i < 64 ==>
              Widen(Extract(bits, whole))[i]
              == (i < bits.width && i + bits.shift < 64 && Widen(whole)[i + bits.shift])
  {
    if bits.shift >= 64 {
      ZeroHasNoBits(Extract(bits, whole));
    } else {
      WidenWord(And(ShiftRight(Widen(whole), bits.shift), Mask(bits.width)));
    }
  }

  lemma WidenWord(w: Word)
    ensures Widen(ToBytes(w)) == w
  {
    WidenBytes(w, 8);
    assert ToBytes(w)[..8] == ToBytes(w);
  }

  /** What any cell is after any part is written: as many bytes, but no more than eight, the bits of the part
      replaced and the others kept. */
  lemma ReplaceIsExact(bits: SymBits, whole: seq<byte>, part: seq<byte>)
    ensures |Replace(bits, whole, part)| == if |whole| <= 8 then |whole| else 8
    ensures forall i :: 0 <= i < 8 * |Replace(bits, whole, part)| ==>
              Widen(Replace(bits, whole, part))[i]
              == if IsOfPart(bits, i) then Widen(part)[i - bits.shift] else Widen(whole)[i]
  {
    var n := |Replace(bits, whole, part)|;
    if bits.shift >= 64 {
      FirstBytesKeepBits(whole, n);
    } else {
      WidenBytes(Merged(bits, Widen(whole), Widen(part)), n);
    }
  }

  lemma FirstBytesKeepBits(code: seq<byte>, n: nat)
    requires n <= |code| && n <= 8
    ensures forall i :: 0 <= i < 8 * n ==> Widen(code[..n])[i] == Widen(code)[i]
  {
    forall i | 0 <= i < 8 * n
      ensures Widen(code[..n])[i] == Widen(code)[i]
    {
      assert code[..n][i / 8] == code[i / 8];
    }
  }

  lemma PartIsRead(bits: SymBits, written: Word, whole: Word, part: Word)
    requires bits.shift + bits.width <= 64
    requires forall i :: 0 <= i < 64 ==>
               written[i] == if IsOfPart(bits, i) then part[i - bits.shift] else whole[i]
    ensures And(ShiftRight(written, bits.shift), Mask(bits.width)) == And(part, Mask(bits.width))
  {
    var read := And(ShiftRight(written, bits.shift), Mask(bits.width));
    forall i | 0 <= i < 64
      ensures read[i] == And(part, Mask(bits.width))[i]
    {
      if i < bits.width {
        assert IsOfPart(bits, i + bits.shift);
      }
    }
  }

  /** What is read after a write is the low bits of what was written. */
  lemma ExtractAfterReplace(bits: SymBits, whole: seq<byte>, part: seq<byte>)
    requires FitsCell(bits, |whole|)
    ensures Extract(bits, Replace(bits, whole, part)) == ToBytes(And(Widen(part), Mask(bits.width)))
  {
    ReplacedBits(bits, whole, part);
    PartIsRead(bits, Widen(Replace(bits, whole, part)), Widen(whole), Widen(part));
  }

  /** Cells of one size with the same bits are the same bytes. */
  lemma SameBitsSameBytes(a: seq<byte>, b: seq<byte>)
    requires |a| == |b| <= 8 && Widen(a) == Widen(b)
    ensures a == b
  {
    forall k | 0 <= k < |a|
      ensures a[k] == b[k]
    {
      BytesOfWiden(a, k);
      BytesOfWiden(b, k);
    }
  }

  /** What is read of a part is not changed by a write to another one. */
  lemma WritesStayApart(a: SymBits, b: SymBits, whole: seq<byte>, part: seq<byte>)
    requires FitsCell(a, |whole|) && FitsCell(b, |whole|)
    requires a.shift + a.width <= b.shift || b.shift + b.width <= a.shift
    ensures Extract(b, Replace(a, whole, part)) == Extract(b, whole)
  {
    ReplacedBits(a, whole, part);
    assert And(ShiftRight(Widen(Replace(a, whole, part)), b.shift), Mask(b.width))
        == And(ShiftRight(Widen(whole), b.shift), Mask(b.width));
  }

  /** Writes to parts that share no bit can be made in any order. */
  lemma WritesCommute(a: SymBits, b: SymBits, whole: seq<byte>, p: seq<byte>, q: seq<byte>)
    requires FitsCell(a, |whole|) && FitsCell(b, |whole|)
    requires a.shift + a.width <= b.shift || b.shift + b.width <= a.shift
    ensures Replace(b, Replace(a, whole, p), q) == Replace(a, Replace(b, whole, q), p)
  {
    ReplacedBits(a, whole, p);
    ReplacedBits(b, whole, q);
    ReplacedBits(b, Replace(a, whole, p), q);
    ReplacedBits(a, Replace(b, whole, q), p);
    var x, y := Replace(b, Replace(a, whole, p), q), Replace(a, Replace(b, whole, q), p);
    assert Widen(x) == Widen(y);
    SameBitsSameBytes(x, y);
  }
}
